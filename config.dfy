/*
 * lbuild/config.py: configuration nodes, the tree the `extends` chain
 * builds out of them, flattening that tree into one configuration,
 * command-line overrides, environment substitution in the XML text and
 * the XML-to-dict conversion.
 *
 * A configuration tree is a value here: `extend` returns the spliced
 * tree instead of relinking node objects, and a node is addressed by its
 * path of child indices from the root.
 */
module Config {
  import opened Errors
  import opened PyValue
  import Text
  import Paths
  import Options

  // ------------------------------------------ insertion-ordered dicts

  /** The keys of an insertion-ordered dict, in order. */
  function Keys<V>(d: seq<(string, V)>): (r: seq<string>)
    ensures |r| == |d| && forall i :: 0 <= i < |d| ==> r[i] == d[i].0
  {
    if |d| == 0 then [] else [d[0].0] + Keys(d[1..])
  }

  /** No key occurs twice. */
  predicate IsDict<V>(d: seq<(string, V)>)
  {
    forall i, j :: 0 <= i < j < |d| ==> d[i].0 != d[j].0
  }

  /** `d.get(k)`: the value of the first entry with key `k`. */
  function Get<V>(d: seq<(string, V)>, k: string): (r: Option<V>)
    ensures r.Some? <==> k in Keys(d)
  {
    if |d| == 0 then None
    else if d[0].0 == k then Some(d[0].1)
    else Get(d[1..], k)
  }

  /** `d[k] = v`: a present key keeps its place, a new one goes last. */
  function Put<V>(d: seq<(string, V)>, k: string, v: V): seq<(string, V)>
  {
    if |d| == 0 then [(k, v)]
    else if d[0].0 == k then [(k, v)] + d[1..]
    else [d[0]] + Put(d[1..], k, v)
  }

  /** After `d[k] = v`, `k` maps to `v` and every other key to what it did before. */
  lemma {:induction false} PutGet<V>(d: seq<(string, V)>, k: string, v: V, k': string)
    ensures Get(Put(d, k, v), k') == if k' == k then Some(v) else Get(d, k')
    decreases |d|
  {
    if |d| > 0 && d[0].0 != k {
      PutGet(d[1..], k, v, k');
    }
  }

  /** `d[k] = v` keeps the order of the keys and appends a new one; a dict stays a dict. */
  lemma {:induction false} PutKeys<V>(d: seq<(string, V)>, k: string, v: V)
    ensures Keys(Put(d, k, v)) == if k in Keys(d) then Keys(d) else Keys(d) + [k]
    ensures IsDict(d) ==> IsDict(Put(d, k, v))
    decreases |d|
  {
    if |d| > 0 && d[0].0 != k {
      PutKeys(d[1..], k, v);
      var r := Put(d, k, v);
      assert r == [d[0]] + Put(d[1..], k, v);
      assert Keys(r) == [d[0].0] + Keys(Put(d[1..], k, v));
      assert Keys(d) == [d[0].0] + Keys(d[1..]);
      if IsDict(d) {
        assert d[0].0 !in Keys(d[1..]);
        assert d[0].0 !in Keys(Put(d[1..], k, v));
      }
    } else if |d| > 0 {
      assert Keys(Put(d, k, v)) == [k] + Keys(d[1..]);
      assert Keys(d) == [k] + Keys(d[1..]);
    }
  }

  /** `d.update(e)`: the entries of `e` put one after the other. */
  function Update<V>(d: seq<(string, V)>, e: seq<(string, V)>): seq<(string, V)>
    decreases |e|
  {
    if |e| == 0 then d else Update(Put(d, e[0].0, e[0].1), e[1..])
  }

  /** `del d[k]`: the entries of other keys, in order. */
  function Delete<V>(d: seq<(string, V)>, k: string): (r: seq<(string, V)>)
    ensures forall k' :: k' in Keys(r) <==> k' in Keys(d) && k' != k
    ensures forall k' :: k' != k ==> Get(r, k') == Get(d, k')
  {
    if |d| == 0 then []
    else
      var rest := Delete(d[1..], k);
      assert Keys(d) == [d[0].0] + Keys(d[1..]);
      if d[0].0 == k then rest
      else
        assert Keys([d[0]] + rest) == [d[0].0] + Keys(rest);
        [d[0]] + rest
  }

  /** After `d.update(e)` with a dict `e`, a key of `e` has `e`'s value and any other key keeps its own. */
  lemma {:induction false} UpdateGet<V>(d: seq<(string, V)>, e: seq<(string, V)>, k: string)
    requires IsDict(e)
    ensures Get(Update(d, e), k) == if k in Keys(e) then Get(e, k) else Get(d, k)
    decreases |e|
  {
    if |e| > 0 {
      UpdateGet(Put(d, e[0].0, e[0].1), e[1..], k);
      PutGet(d, e[0].0, e[0].1, k);
      assert Keys(e) == [e[0].0] + Keys(e[1..]);
    }
  }

  lemma {:induction false} UpdateIsDict<V>(d: seq<(string, V)>, e: seq<(string, V)>)
    requires IsDict(d)
    ensures IsDict(Update(d, e))
    decreases |e|
  {
    if |e| > 0 {
      PutKeys(d, e[0].0, e[0].1);
      UpdateIsDict(Put(d, e[0].0, e[0].1), e[1..]);
    }
  }

  // ------------------------------------------------- one configuration

  /**
   * The fields of one `ConfigNode`: its file, output path and cache
   * folder when set, the unresolved `extends` aliases per file, the VCS
   * entries, repository files, requested modules, options (name to value
   * and origin) and collectors (name, value, origin).
   */
  datatype ConfigData = ConfigData(
    filename: string, outpath: Option<string>, cachefolder: Option<string>,
    extended: seq<(string, seq<string>)>, vcs: seq<Value>, repositories: seq<string>,
    modules: seq<string>, options: seq<(string, (string, string))>,
    collectors: seq<(string, string, string)>)

  /** `ConfigNode()`: nothing set, and the file `Path()`, which prints as ".". */
  const Empty: ConfigData := ConfigData(".", None, None, [], [], [], [], [], [])

  const DefaultCacheFolder: string := ".lbuild_cache"

  /** `cachefolder`: the one set, or `.lbuild_cache` beside the configuration file. */
  function CacheFolder(d: ConfigData): (r: string)
    ensures d.cachefolder.Some? ==> r == d.cachefolder.value
    ensures d.cachefolder.None? ==> Text.EndsWith(r, DefaultCacheFolder)
  {
    if d.cachefolder.Some? then d.cachefolder.value
    else Paths.Join(Paths.Dirname(d.filename), DefaultCacheFolder)
  }

  /** The origin recorded for command-line entries. */
  function CommandLine(cwd: string): string
  {
    Paths.Join(cwd, "command-line")
  }

  /** What indexing `parts[1]` raises when an entry holds no `=`. */
  const NoValue: Error := Raised(OtherError, "list index out of range")

  /**
   * `add_commandline_options(cmd)`: each `name=value` entry, split at
   * `=`, sets the option to the text between the first and the second
   * `=` with the command line as origin; an entry without `=` raises,
   * leaving the earlier entries set.
   */
  function CommandlineOptions(d: ConfigData, cmd: seq<string>, cwd: string): (ConfigData, Option<Error>)
    decreases |cmd|
  {
    if |cmd| == 0 then (d, None)
    else
      var parts := Text.Split(cmd[0], "=");
      if |parts| < 2 then (d, Some(NoValue))
      else CommandlineOptions(d.(options := Put(d.options, parts[0], (parts[1], CommandLine(cwd)))), cmd[1..], cwd)
  }

  method AddCommandlineOptions(d: ConfigData, cmd: seq<string>, cwd: string) returns (r: ConfigData, err: Option<Error>)
    ensures (r, err) == CommandlineOptions(d, cmd, cwd)
  {
    r := d;
    var k := 0;
    while k < |cmd|
      invariant 0 <= k <= |cmd|
      invariant CommandlineOptions(r, cmd[k..], cwd) == CommandlineOptions(d, cmd, cwd)
    {
      var parts := Text.Split(cmd[k], "=");
      if |parts| < 2 {
        return r, Some(NoValue);
      }
      r := r.(options := Put(r.options, parts[0], (parts[1], CommandLine(cwd))));
      assert cmd[k..][1..] == cmd[k + 1..];
      k := k + 1;
    }
    err := None;
  }

  /**
   * Command-line options: all entries apply when each holds a `=`; the
   * first entry without one raises; and an entry set later overrides an
   * earlier one with the same name.
   */
  lemma CommandlineOptionsSpec(d: ConfigData, cmd: seq<string>, cwd: string, k: string)
    ensures var (r, err) := CommandlineOptions(d, cmd, cwd);
      (err.None? <==> forall i :: 0 <= i < |cmd| ==> '=' in cmd[i]) &&
      (err.Some? ==> err == Some(NoValue)) &&
      (err.None? ==> Get(r.options, k) == if LastSetting(cmd, cwd, k).Some? then LastSetting(cmd, cwd, k) else Get(d.options, k))
  {
    CommandlineErrors(d, cmd, cwd);
    CommandlineLast(d, cmd, cwd, k);
  }

  lemma {:induction false} CommandlineErrors(d: ConfigData, cmd: seq<string>, cwd: string)
    ensures var err := CommandlineOptions(d, cmd, cwd).1;
      (err.None? <==> forall i :: 0 <= i < |cmd| ==> '=' in cmd[i]) && (err.Some? ==> err == Some(NoValue))
    decreases |cmd|
  {
    if |cmd| > 0 {
      var parts := Text.Split(cmd[0], "=");
      SplitAtEquals(cmd[0]);
      if |parts| >= 2 {
        var d2 := d.(options := Put(d.options, parts[0], (parts[1], CommandLine(cwd))));
        CommandlineErrors(d2, cmd[1..], cwd);
        assert CommandlineOptions(d, cmd, cwd) == CommandlineOptions(d2, cmd[1..], cwd);
        assert forall i :: 1 <= i < |cmd| ==> cmd[1..][i - 1] == cmd[i];
      } else {
        assert CommandlineOptions(d, cmd, cwd).1 == Some(NoValue);
        assert '=' !in cmd[0];
      }
    }
  }

  lemma {:induction false} CommandlineLast(d: ConfigData, cmd: seq<string>, cwd: string, k: string)
    ensures var (r, err) := CommandlineOptions(d, cmd, cwd);
      err.None? ==> Get(r.options, k) == if LastSetting(cmd, cwd, k).Some? then LastSetting(cmd, cwd, k) else Get(d.options, k)
    decreases |cmd|
  {
    if |cmd| > 0 {
      var parts := Text.Split(cmd[0], "=");
      if |parts| >= 2 {
        var setting := (parts[1], CommandLine(cwd));
        var d2 := d.(options := Put(d.options, parts[0], setting));
        CommandlineLast(d2, cmd[1..], cwd, k);
        PutGet(d.options, parts[0], setting, k);
        assert CommandlineOptions(d, cmd, cwd) == CommandlineOptions(d2, cmd[1..], cwd);
      }
    }
  }

  /** The setting the last entry of `cmd` naming option `k` gives it, if any entry does. */
  function LastSetting(cmd: seq<string>, cwd: string, k: string): Option<(string, string)>
    decreases |cmd|
  {
    if |cmd| == 0 then None
    else
      var rest := LastSetting(cmd[1..], cwd, k);
      var parts := Text.Split(cmd[0], "=");
      if rest.Some? then rest
      else if |parts| >= 2 && parts[0] == k then Some((parts[1], CommandLine(cwd)))
      else None
  }

  /** `add_commandline_collectors(cmd)`: a (name, value, origin) triple appended per entry. */
  function CommandlineCollectors(d: ConfigData, cmd: seq<string>, cwd: string): (ConfigData, Option<Error>)
    decreases |cmd|
  {
    if |cmd| == 0 then (d, None)
    else
      var parts := Text.Split(cmd[0], "=");
      if |parts| < 2 then (d, Some(NoValue))
      else CommandlineCollectors(d.(collectors := d.collectors + [(parts[0], parts[1], CommandLine(cwd))]),
                                 cmd[1..], cwd)
  }

  method AddCommandlineCollectors(d: ConfigData, cmd: seq<string>, cwd: string) returns (r: ConfigData, err: Option<Error>)
    ensures (r, err) == CommandlineCollectors(d, cmd, cwd)
  {
    r := d;
    var k := 0;
    while k < |cmd|
      invariant 0 <= k <= |cmd|
      invariant CommandlineCollectors(r, cmd[k..], cwd) == CommandlineCollectors(d, cmd, cwd)
    {
      var parts := Text.Split(cmd[k], "=");
      if |parts| < 2 {
        return r, Some(NoValue);
      }
      r := r.(collectors := r.collectors + [(parts[0], parts[1], CommandLine(cwd))]);
      assert cmd[k..][1..] == cmd[k + 1..];
      k := k + 1;
    }
    err := None;
  }

  /** `c` is the triple that `add_commandline_collectors` records for `entry`. */
  predicate RecordedFor(c: (string, string, string), entry: string, cwd: string)
  {
    var parts := Text.Split(entry, "=");
    |parts| >= 2 && c == (parts[0], parts[1], CommandLine(cwd))
  }

  /**
   * Command-line collectors keep everything that was there and append
   * one triple per entry, in order, when every entry holds a `=`.
   */
  lemma CommandlineCollectorsSpec(d: ConfigData, cmd: seq<string>, cwd: string)
    requires forall i :: 0 <= i < |cmd| ==> '=' in cmd[i]
    ensures var (r, err) := CommandlineCollectors(d, cmd, cwd);
      err.None? && |r.collectors| == |d.collectors| + |cmd| && r.collectors[..|d.collectors|] == d.collectors &&
      forall i :: 0 <= i < |cmd| ==> RecordedFor(r.collectors[|d.collectors| + i], cmd[i], cwd)
  {
    CollectorsKept(d, cmd, cwd);
    CollectorsRecorded(d, cmd, cwd);
  }

  /** An entry splits into at least two parts exactly when it holds `=`. */
  lemma SplitAtEquals(entry: string)
    ensures '=' in entry <==> |Text.Split(entry, "=")| >= 2
  {
    Text.SplitCount(entry, '=');
    Text.CountIn(entry, '=');
  }

  /** The first step of `add_commandline_collectors` on an entry holding `=`. */
  lemma CollectorsStep(d: ConfigData, cmd: seq<string>, cwd: string)
    requires |cmd| > 0 && '=' in cmd[0]
    ensures var parts := Text.Split(cmd[0], "=");
      |parts| >= 2 &&
      CommandlineCollectors(d, cmd, cwd) ==
        CommandlineCollectors(d.(collectors := d.collectors + [(parts[0], parts[1], CommandLine(cwd))]), cmd[1..], cwd)
  {
    SplitAtEquals(cmd[0]);
  }

  /** Collecting never fails, adds one triple per entry and keeps the old ones. */
  lemma {:induction false} CollectorsKept(d: ConfigData, cmd: seq<string>, cwd: string)
    requires forall i :: 0 <= i < |cmd| ==> '=' in cmd[i]
    ensures var (r, err) := CommandlineCollectors(d, cmd, cwd);
      err.None? && |r.collectors| == |d.collectors| + |cmd| && r.collectors[..|d.collectors|] == d.collectors
    decreases |cmd|
  {
    if |cmd| > 0 {
      CollectorsStep(d, cmd, cwd);
      var parts := Text.Split(cmd[0], "=");
      var d2 := d.(collectors := d.collectors + [(parts[0], parts[1], CommandLine(cwd))]);
      assert forall i :: 1 <= i < |cmd| ==> cmd[1..][i - 1] == cmd[i];
      CollectorsKept(d2, cmd[1..], cwd);
      var r := CommandlineCollectors(d2, cmd[1..], cwd).0;
      assert r.collectors[..|d.collectors|] == r.collectors[..|d2.collectors|][..|d.collectors|];
    }
  }

  /** The triple at offset `i` past the old collectors comes from entry `i`. */
  lemma {:induction false} CollectorsRecorded(d: ConfigData, cmd: seq<string>, cwd: string)
    requires forall i :: 0 <= i < |cmd| ==> '=' in cmd[i]
    ensures var r := CommandlineCollectors(d, cmd, cwd).0;
      |r.collectors| == |d.collectors| + |cmd| &&
      forall i :: 0 <= i < |cmd| ==> RecordedFor(r.collectors[|d.collectors| + i], cmd[i], cwd)
    decreases |cmd|
  {
    if |cmd| > 0 {
      CollectorsStep(d, cmd, cwd);
      var parts := Text.Split(cmd[0], "=");
      var c := (parts[0], parts[1], CommandLine(cwd));
      var d2 := d.(collectors := d.collectors + [c]);
      assert forall i :: 1 <= i < |cmd| ==> cmd[1..][i - 1] == cmd[i];
      CollectorsRecorded(d2, cmd[1..], cwd);
      CollectorsKept(d2, cmd[1..], cwd);
      var r := CommandlineCollectors(d2, cmd[1..], cwd).0;
      assert r.collectors[|d.collectors|] == r.collectors[..|d2.collectors|][|d.collectors|] == c;
      forall i | 0 <= i < |cmd|
        ensures RecordedFor(r.collectors[|d.collectors| + i], cmd[i], cwd)
      {
        if i > 0 {
          assert cmd[1..][i - 1] == cmd[i];
          assert |d2.collectors| + (i - 1) == |d.collectors| + i;
        }
      }
    }
  }

  // ------------------------------------------------ the configuration tree

  /**
   * A `ConfigNode` with its children in order.  A file's children are the
   * files it extends; `extend` splices further files in below a node.
   */
  datatype ConfigTree = ConfigTree(data: ConfigData, children: seq<ConfigTree>)

  /** The nodes in pre-order (`[root] + root.descendants`). */
  function PreOrder(t: ConfigTree): seq<ConfigData>
    decreases t
  {
    [t.data] + PreForest(t.children)
  }

  function PreForest(cs: seq<ConfigTree>): seq<ConfigData>
    decreases cs
  {
    if |cs| == 0 then [] else PreForest(cs[..|cs| - 1]) + PreOrder(cs[|cs| - 1])
  }

  /** The nodes in post-order: every subtree before its root. */
  function PostOrder(t: ConfigTree): seq<ConfigData>
    decreases t
  {
    PostForest(t.children) + [t.data]
  }

  function PostForest(cs: seq<ConfigTree>): seq<ConfigData>
    decreases cs
  {
    if |cs| == 0 then [] else PostForest(cs[..|cs| - 1]) + PostOrder(cs[|cs| - 1])
  }

  lemma {:induction false} PreForestAppend(a: seq<ConfigTree>, b: seq<ConfigTree>)
    ensures PreForest(a + b) == PreForest(a) + PreForest(b)
    decreases |b|
  {
    if |b| == 0 {
      assert a + b == a;
    } else {
      assert (a + b)[..|a + b| - 1] == a + b[..|b| - 1];
      assert (a + b)[|a + b| - 1] == b[|b| - 1];
      PreForestAppend(a, b[..|b| - 1]);
    }
  }

  /** The path of child indices from the root to a node. */
  predicate ValidPath(t: ConfigTree, p: seq<nat>)
    decreases |p|
  {
    |p| == 0 || (p[0] < |t.children| && ValidPath(t.children[p[0]], p[1..]))
  }

  function At(t: ConfigTree, p: seq<nat>): ConfigTree
    requires ValidPath(t, p)
    decreases |p|
  {
    if |p| == 0 then t else At(t.children[p[0]], p[1..])
  }

  /** `t` with the subtree at `p` replaced by `s`. */
  function ReplaceAt(t: ConfigTree, p: seq<nat>, s: ConfigTree): ConfigTree
    requires ValidPath(t, p)
    decreases |p|
  {
    if |p| == 0 then s
    else t.(children := t.children[p[0] := ReplaceAt(t.children[p[0]], p[1..], s)])
  }

  lemma {:induction false} ReplaceAtAt(t: ConfigTree, p: seq<nat>, s: ConfigTree)
    requires ValidPath(t, p)
    ensures ValidPath(ReplaceAt(t, p, s), p) && At(ReplaceAt(t, p, s), p) == s
    decreases |p|
  {
    if |p| > 0 {
      ReplaceAtAt(t.children[p[0]], p[1..], s);
    }
  }

  lemma Cancel<T>(x: multiset<T>, y: multiset<T>, z: multiset<T>)
    requires x + z == y + z
    ensures x == y
  {
    assert forall e :: x[e] == (x + z)[e] - z[e];
  }

  lemma Front<T>(d: multiset<T>, f': multiset<T>, a: multiset<T>, f: multiset<T>, s: multiset<T>)
    requires f' + a == f + s
    ensures (d + f') + a == (d + f) + s
  {
    forall e
      ensures ((d + f') + a)[e] == ((d + f) + s)[e]
    {
      assert (f' + a)[e] == (f + s)[e];
    }
  }

  lemma Exchange<T>(f': multiset<T>, a: multiset<T>, c: multiset<T>, f: multiset<T>, s: multiset<T>, x: multiset<T>)
    requires x + a == c + s && f' + c == f + x
    ensures f' + a == f + s
  {
    forall e
      ensures (f' + a)[e] == (f + s)[e]
    {
      assert (x + a)[e] == (c + s)[e];
      assert (f' + c)[e] == (f + x)[e];
    }
  }

  /** Replacing the subtree at `p` exchanges exactly its nodes for those of the new one. */
  lemma {:induction false} ReplaceAtNodes(t: ConfigTree, p: seq<nat>, s: ConfigTree)
    requires ValidPath(t, p)
    ensures multiset(PreOrder(ReplaceAt(t, p, s))) + multiset(PreOrder(At(t, p)))
         == multiset(PreOrder(t)) + multiset(PreOrder(s))
    decreases |p|
  {
    if |p| > 0 {
      var cs := t.children;
      var i := p[0];
      var x := ReplaceAt(cs[i], p[1..], s);
      ReplaceAtNodes(cs[i], p[1..], s);
      ForestExchange(cs, i, x);
      var mA, mX, mC, mS := multiset(PreOrder(At(cs[i], p[1..]))), multiset(PreOrder(x)), multiset(PreOrder(cs[i])), multiset(PreOrder(s));
      var mF, mF' := multiset(PreForest(cs)), multiset(PreForest(cs[i := x]));
      Exchange(mF', mA, mC, mF, mS, mX);
      var r := ReplaceAt(t, p, s);
      assert r == t.(children := cs[i := x]);
      assert PreOrder(r) == [t.data] + PreForest(cs[i := x]);
      assert PreOrder(t) == [t.data] + PreForest(cs);
      assert multiset(PreOrder(r)) == multiset([t.data]) + mF';
      assert multiset(PreOrder(t)) == multiset([t.data]) + mF;
      assert At(t, p) == At(cs[i], p[1..]);
      Front(multiset([t.data]), mF', mA, mF, mS);
    } else {
      var mT, mS := multiset(PreOrder(t)), multiset(PreOrder(s));
      assert mS + mT == mT + mS;
    }
  }

  /** Exchanging one child exchanges its nodes in the forest's pre-order. */
  lemma ForestExchange(cs: seq<ConfigTree>, i: nat, x: ConfigTree)
    requires i < |cs|
    ensures multiset(PreForest(cs[i := x])) + multiset(PreOrder(cs[i]))
         == multiset(PreForest(cs)) + multiset(PreOrder(x))
  {
    var a, b := cs[..i], cs[i + 1..];
    assert cs == a + [cs[i]] + b;
    assert cs[i := x] == a + [x] + b;
    PreForestAppend(a + [cs[i]], b);
    PreForestAppend(a + [x], b);
    PreForestAppend(a, [cs[i]]);
    PreForestAppend(a, [x]);
    assert PreForest([cs[i]]) == PreOrder(cs[i]) by { assert [cs[i]][..0] == []; }
    assert PreForest([x]) == PreOrder(x) by { assert [x][..0] == []; }
  }

  /**
   * `extend(node, config)`: `config` becomes the node's last child, and
   * the node's previous first child, if any, moves beneath `config` as
   * its last child.
   */
  function Spliced(node: ConfigTree, c: ConfigTree): ConfigTree
  {
    if |node.children| == 0 then node.(children := [c])
    else node.(children := node.children[1..] + [c.(children := c.children + [node.children[0]])])
  }

  function Extend(t: ConfigTree, p: seq<nat>, c: ConfigTree): ConfigTree
    requires ValidPath(t, p)
  {
    ReplaceAt(t, p, Spliced(At(t, p), c))
  }

  lemma PreForestOne(t: ConfigTree)
    ensures PreForest([t]) == PreOrder(t)
  {
    assert [t][..0] == [];
  }

  /** Hanging `k` below `c` as its last child adds exactly the nodes of `k`. */
  lemma AppendChildNodes(c: ConfigTree, k: ConfigTree)
    ensures multiset(PreOrder(c.(children := c.children + [k]))) == multiset(PreOrder(c)) + multiset(PreOrder(k))
  {
    PreForestAppend(c.children, [k]);
    PreForestOne(k);
    var mD, mF, mK := multiset([c.data]), multiset(PreForest(c.children)), multiset(PreOrder(k));
    assert multiset(PreOrder(c.(children := c.children + [k]))) == mD + (mF + mK);
    assert multiset(PreOrder(c)) == mD + mF;
  }

  /** Splicing `config` in below a node loses no node of either tree and duplicates none. */
  lemma SplicedNodes(node: ConfigTree, c: ConfigTree)
    ensures multiset(PreOrder(Spliced(node, c))) == multiset(PreOrder(node)) + multiset(PreOrder(c))
  {
    if |node.children| == 0 {
      AppendChildNodes(node, c);
      assert Spliced(node, c) == node.(children := node.children + [c]);
    } else {
      SplicedBelowNodes(node, c);
    }
  }

  /** The case of a node with children: its first child moves below `config`. */
  lemma SplicedBelowNodes(node: ConfigTree, c: ConfigTree)
    requires |node.children| > 0
    ensures multiset(PreOrder(Spliced(node, c))) == multiset(PreOrder(node)) + multiset(PreOrder(c))
  {
    var cs := node.children;
    var k, rest := cs[0], cs[1..];
    var c' := c.(children := c.children + [k]);
    assert PreOrder(node) == [node.data] + (PreOrder(k) + PreForest(rest)) by {
      assert cs == [k] + rest;
      PreForestAppend([k], rest);
      PreForestOne(k);
    }
    assert PreOrder(Spliced(node, c)) == [node.data] + (PreForest(rest) + PreOrder(c')) by {
      PreForestAppend(rest, [c']);
      PreForestOne(c');
    }
    AppendChildNodes(c, k);
  }

  /**
   * Extending the tree at any node loses no node and duplicates none:
   * the result holds exactly the nodes of both trees.
   */
  lemma ExtendNodes(t: ConfigTree, p: seq<nat>, c: ConfigTree)
    requires ValidPath(t, p)
    ensures multiset(PreOrder(Extend(t, p, c))) == multiset(PreOrder(t)) + multiset(PreOrder(c))
  {
    var sp := Spliced(At(t, p), c);
    ReplaceAtNodes(t, p, sp);
    SplicedNodes(At(t, p), c);
    var mE, mA, mT, mC := multiset(PreOrder(Extend(t, p, c))), multiset(PreOrder(At(t, p))), multiset(PreOrder(t)), multiset(PreOrder(c));
    assert mE + mA == (mT + mC) + mA;
    Cancel(mE, mT + mC, mA);
  }

  /** The path of `last`: down the last child until a leaf. */
  function LastPath(t: ConfigTree): (p: seq<nat>)
    ensures ValidPath(t, p)
    decreases t
  {
    if |t.children| == 0 then []
    else
      var n := |t.children| - 1;
      [n] + LastPath(t.children[n])
  }

  /** `last` is a leaf, and it is the last node in pre-order (the last descendant, or the root itself). */
  lemma {:induction false} LastPathSpec(t: ConfigTree)
    ensures At(t, LastPath(t)).children == []
    ensures PreOrder(t)[|PreOrder(t)| - 1] == At(t, LastPath(t)).data
    decreases t
  {
    if |t.children| > 0 {
      var n := |t.children| - 1;
      LastPathSpec(t.children[n]);
      assert ([n] + LastPath(t.children[n]))[1..] == LastPath(t.children[n]);
    }
  }

  /** `extend_last(config)`. */
  function ExtendLast(t: ConfigTree, c: ConfigTree): ConfigTree
  {
    Extend(t, LastPath(t), c)
  }

  /**
   * A chain: every node has at most one child. `from_path` chains the files
   * it finds, and a file whose `extends` paths do not exist is one node.
   */
  predicate Chain(t: ConfigTree)
    decreases t
  {
    |t.children| == 0 || (|t.children| == 1 && Chain(t.children[0]))
  }

  /**
   * On a chain, `extend_last` hangs the new chain below the last node,
   * so that in post-order all of the new nodes come before all the old.
   */
  lemma {:induction false} ExtendLastChain(t: ConfigTree, c: ConfigTree)
    requires Chain(t) && Chain(c)
    ensures Chain(ExtendLast(t, c))
    ensures PostOrder(ExtendLast(t, c)) == PostOrder(c) + PostOrder(t)
    decreases t
  {
    if |t.children| == 0 {
      assert ExtendLast(t, c) == t.(children := [c]);
      assert PostForest([c]) == PostOrder(c) by { assert [c][..0] == []; }
    } else {
      var k := t.children[0];
      ExtendLastChain(k, c);
      assert LastPath(t) == [0] + LastPath(k);
      assert ([0] + LastPath(k))[1..] == LastPath(k);
      var e := ExtendLast(t, c);
      assert e == t.(children := [ExtendLast(k, c)]);
      assert PostForest([ExtendLast(k, c)]) == PostOrder(ExtendLast(k, c)) by { assert [ExtendLast(k, c)][..0] == []; }
      assert PostForest([k]) == PostOrder(k) by { assert [k][..0] == []; }
    }
  }

  /** Below a chain every node heads a chain. */
  lemma {:induction false} AtChain(t: ConfigTree, p: seq<nat>)
    requires ValidPath(t, p) && Chain(t)
    ensures Chain(At(t, p))
    decreases |p|
  {
    if |p| > 0 {
      AtChain(t.children[p[0]], p[1..]);
    }
  }

  /** Putting a chain in place of a node of a chain leaves a chain. */
  lemma {:induction false} ReplaceAtChain(t: ConfigTree, p: seq<nat>, s: ConfigTree)
    requires ValidPath(t, p) && Chain(t) && Chain(s)
    ensures Chain(ReplaceAt(t, p, s))
    decreases |p|
  {
    if |p| > 0 {
      ReplaceAtChain(t.children[p[0]], p[1..], s);
      assert ReplaceAt(t, p, s).children == [ReplaceAt(t.children[0], p[1..], s)];
    }
  }

  /**
   * `extend(node, config)` with a configuration of one node keeps a chain a
   * chain: the new node goes between `node` and its one child.
   */
  lemma ExtendChain(t: ConfigTree, p: seq<nat>, c: ConfigTree)
    requires ValidPath(t, p) && Chain(t) && c.children == []
    ensures Chain(Extend(t, p, c))
  {
    var node := At(t, p);
    AtChain(t, p);
    if |node.children| > 0 {
      var c' := c.(children := [node.children[0]]);
      assert Chain(c');
      assert Spliced(node, c) == node.(children := [c']) by {
        assert node.children[1..] == [];
        assert c.children + [node.children[0]] == [node.children[0]];
      }
    }
    ReplaceAtChain(t, p, Spliced(node, c));
  }

  /** The paths of the nodes whose file is `f`, in pre-order. */
  function FindIn(t: ConfigTree, f: string): seq<seq<nat>>
    decreases t
  {
    (if t.data.filename == f then [[]] else []) + FindForest(t.children, f)
  }

  function FindForest(cs: seq<ConfigTree>, f: string): seq<seq<nat>>
    decreases cs
  {
    if |cs| == 0 then []
    else
      var n := |cs| - 1;
      FindForest(cs[..n], f) + Below(n, FindIn(cs[n], f))
  }

  /** The paths `ps` of a child, seen from its parent. */
  function Below(n: nat, ps: seq<seq<nat>>): (r: seq<seq<nat>>)
    ensures |r| == |ps| && forall i :: 0 <= i < |ps| ==> r[i] == [n] + ps[i]
  {
    if |ps| == 0 then [] else [[n] + ps[0]] + Below(n, ps[1..])
  }

  /** The error `find_by_attr` raises for a file that occurs more than once. */
  const CountError: Error := Raised(OtherError, "CountError")

  /** `find(filename)`: the one node of that file, none, or a count error when there are several. */
  function Find(t: ConfigTree, f: string): (r: Result<Option<seq<nat>>>)
    ensures r.Failure? <==> CountFile(PreOrder(t), f) > 1
    ensures r.Failure? ==> r.error == CountError
    ensures r == Success(None) <==> CountFile(PreOrder(t), f) == 0
    ensures r.Success? && r.value.Some? ==> ValidPath(t, r.value.value) && At(t, r.value.value).data.filename == f
  {
    FindInSpec(t, f);
    var ps := FindIn(t, f);
    if |ps| == 0 then Success(None)
    else if |ps| == 1 then Success(Some(ps[0]))
    else Failure(CountError)
  }

  function CountFile(ns: seq<ConfigData>, f: string): nat
    decreases |ns|
  {
    if |ns| == 0 then 0
    else CountFile(ns[..|ns| - 1], f) + (if ns[|ns| - 1].filename == f then 1 else 0)
  }

  lemma {:induction false} CountFileAppend(a: seq<ConfigData>, b: seq<ConfigData>, f: string)
    ensures CountFile(a + b, f) == CountFile(a, f) + CountFile(b, f)
    decreases |b|
  {
    if |b| == 0 {
      assert a + b == a;
    } else {
      assert (a + b)[..|a + b| - 1] == a + b[..|b| - 1];
      CountFileAppend(a, b[..|b| - 1], f);
    }
  }

  /**
   * `find` sees every node: it finds one path per node of that file, and
   * each path it finds leads to a node of that file.
   */
  lemma {:induction false} FindInSpec(t: ConfigTree, f: string)
    ensures |FindIn(t, f)| == CountFile(PreOrder(t), f)
    ensures forall i :: 0 <= i < |FindIn(t, f)| ==>
      ValidPath(t, FindIn(t, f)[i]) && At(t, FindIn(t, f)[i]).data.filename == f
    decreases t
  {
    FindForestSpec(t.children, f);
    CountFileAppend([t.data], PreForest(t.children), f);
    assert CountFile([t.data], f) == if t.data.filename == f then 1 else 0 by { assert [t.data][..0] == []; }
    var ps := FindIn(t, f);
    var own: seq<seq<nat>> := if t.data.filename == f then [[]] else [];
    forall i | 0 <= i < |ps|
      ensures ValidPath(t, ps[i]) && At(t, ps[i]).data.filename == f
    {
      if i >= |own| {
        assert ps[i] == FindForest(t.children, f)[i - |own|];
      }
    }
  }

  lemma {:induction false} FindForestSpec(cs: seq<ConfigTree>, f: string)
    ensures |FindForest(cs, f)| == CountFile(PreForest(cs), f)
    ensures forall i :: 0 <= i < |FindForest(cs, f)| ==>
      var p := FindForest(cs, f)[i];
      |p| > 0 && p[0] < |cs| && ValidPath(cs[p[0]], p[1..]) && At(cs[p[0]], p[1..]).data.filename == f
    decreases cs
  {
    if |cs| > 0 {
      var n := |cs| - 1;
      FindForestSpec(cs[..n], f);
      FindInSpec(cs[n], f);
      CountFileAppend(PreForest(cs[..n]), PreOrder(cs[n]), f);
      var a := FindForest(cs[..n], f);
      var b := Below(n, FindIn(cs[n], f));
      forall i | 0 <= i < |a + b|
        ensures var p := (a + b)[i];
          |p| > 0 && p[0] < |cs| && ValidPath(cs[p[0]], p[1..]) && At(cs[p[0]], p[1..]).data.filename == f
      {
        if i >= |a| {
          var q := FindIn(cs[n], f)[i - |a|];
          assert (a + b)[i] == [n] + q;
          assert ([n] + q)[1..] == q;
        }
      }
    }
  }

  // -------------------------------------------------------- flattening

  /**
   * One pass of the `_flatten` loop: a node's cache folder and output
   * path replace the collected ones when set, its dicts update the
   * collected dicts, and its lists are appended.
   */
  function Absorb(c: ConfigData, n: ConfigData): ConfigData
  {
    c.(cachefolder := if n.cachefolder.Some? then n.cachefolder else c.cachefolder,
       outpath := if n.outpath.Some? then n.outpath else c.outpath,
       extended := Update(c.extended, n.extended),
       vcs := c.vcs + n.vcs,
       repositories := c.repositories + n.repositories,
       modules := c.modules + n.modules,
       options := Update(c.options, n.options),
       collectors := c.collectors + n.collectors)
  }

  /** The nodes absorbed one after the other. */
  function AbsorbAll(c: ConfigData, ns: seq<ConfigData>): ConfigData
    decreases |ns|
  {
    if |ns| == 0 then c else Absorb(AbsorbAll(c, ns[..|ns| - 1]), ns[|ns| - 1])
  }

  function Datas(cs: seq<ConfigTree>): (r: seq<ConfigData>)
    ensures |r| == |cs| && forall i :: 0 <= i < |cs| ==> r[i] == cs[i].data
  {
    if |cs| == 0 then [] else [cs[0].data] + Datas(cs[1..])
  }

  /**
   * The nodes `_flatten` visits as written, starting from `last` below
   * `t`, whose own siblings are `sib`: at every level the siblings of the
   * node, then the node, then on to its parent.  Only the nodes on the
   * path to `last` and their siblings are visited.
   */
  function VisitAsWritten(t: ConfigTree, sib: seq<ConfigData>): seq<ConfigData>
    decreases t
  {
    if |t.children| == 0 then sib + [t.data]
    else
      var n := |t.children| - 1;
      VisitAsWritten(t.children[n], Datas(t.children[..n])) + sib + [t.data]
  }

  /** `list(set(...))` of the collected repositories and modules, in first-occurrence order. */
  function Finish(c: ConfigData): ConfigData
  {
    c.(repositories := Options.Dedup(c.repositories), modules := Options.Dedup(c.modules))
  }

  /** `flatten()` as written. */
  function FlattenAsWritten(t: ConfigTree): ConfigData
  {
    Finish(AbsorbAll(Empty.(filename := t.data.filename), VisitAsWritten(t, [])))
  }

  /** `flatten()` as intended: every node of the tree, each subtree before its root. */
  function Flatten(t: ConfigTree): ConfigData
  {
    Finish(AbsorbAll(Empty.(filename := t.data.filename), PostOrder(t)))
  }

  /** The setting of option `k` in the last of `ns` that sets it. */
  function LastOption(ns: seq<ConfigData>, k: string): Option<(string, string)>
    decreases |ns|
  {
    if |ns| == 0 then None
    else if k in Keys(ns[|ns| - 1].options) then Get(ns[|ns| - 1].options, k)
    else LastOption(ns[..|ns| - 1], k)
  }

  /** The output path of the last of `ns` that sets one. */
  function LastOutpath(ns: seq<ConfigData>): Option<string>
    decreases |ns|
  {
    if |ns| == 0 then None
    else if ns[|ns| - 1].outpath.Some? then ns[|ns| - 1].outpath
    else LastOutpath(ns[..|ns| - 1])
  }

  /** The cache folder of the last of `ns` that sets one. */
  function LastCacheFolder(ns: seq<ConfigData>): Option<string>
    decreases |ns|
  {
    if |ns| == 0 then None
    else if ns[|ns| - 1].cachefolder.Some? then ns[|ns| - 1].cachefolder
    else LastCacheFolder(ns[..|ns| - 1])
  }

  /** All repositories of `ns`, in order. */
  function AllRepositories(ns: seq<ConfigData>): seq<string>
    decreases |ns|
  {
    if |ns| == 0 then [] else AllRepositories(ns[..|ns| - 1]) + ns[|ns| - 1].repositories
  }

  /** All modules of `ns`, in order. */
  function AllModules(ns: seq<ConfigData>): seq<string>
    decreases |ns|
  {
    if |ns| == 0 then [] else AllModules(ns[..|ns| - 1]) + ns[|ns| - 1].modules
  }

  /** All collectors of `ns`, in order. */
  function AllCollectors(ns: seq<ConfigData>): seq<(string, string, string)>
    decreases |ns|
  {
    if |ns| == 0 then [] else AllCollectors(ns[..|ns| - 1]) + ns[|ns| - 1].collectors
  }

  predicate OptionsAreDicts(ns: seq<ConfigData>)
  {
    forall i :: 0 <= i < |ns| ==> IsDict(ns[i].options)
  }

  /** Absorbing nodes in order: an option comes from the last node that sets it, else stays. */
  lemma {:induction false} AbsorbAllOptions(c: ConfigData, ns: seq<ConfigData>, k: string)
    requires OptionsAreDicts(ns)
    ensures Get(AbsorbAll(c, ns).options, k) == if LastOption(ns, k).Some? then LastOption(ns, k) else Get(c.options, k)
    decreases |ns|
  {
    if |ns| > 0 {
      var n := |ns| - 1;
      AbsorbAllOptions(c, ns[..n], k);
      UpdateGet(AbsorbAll(c, ns[..n]).options, ns[n].options, k);
    }
  }

  /** The output path and cache folder come from the last node that sets them, else stay; the file stays. */
  lemma {:induction false} AbsorbAllPaths(c: ConfigData, ns: seq<ConfigData>)
    ensures var r := AbsorbAll(c, ns);
      r.outpath == (if LastOutpath(ns).Some? then LastOutpath(ns) else c.outpath) &&
      r.cachefolder == (if LastCacheFolder(ns).Some? then LastCacheFolder(ns) else c.cachefolder) &&
      r.filename == c.filename
    decreases |ns|
  {
    if |ns| > 0 {
      AbsorbAllPaths(c, ns[..|ns| - 1]);
    }
  }

  /** The lists are the concatenation of all the nodes' lists, in order. */
  lemma {:induction false} AbsorbAllLists(c: ConfigData, ns: seq<ConfigData>)
    ensures var r := AbsorbAll(c, ns);
      r.repositories == c.repositories + AllRepositories(ns) &&
      r.modules == c.modules + AllModules(ns) &&
      r.collectors == c.collectors + AllCollectors(ns)
    decreases |ns|
  {
    if |ns| > 0 {
      var n := |ns| - 1;
      AbsorbAllLists(c, ns[..n]);
      var a := AbsorbAll(c, ns[..n]);
      var r := Absorb(a, ns[n]);
      assert AbsorbAll(c, ns) == r;
      assert r.repositories == c.repositories + (AllRepositories(ns[..n]) + ns[n].repositories);
      assert r.modules == c.modules + (AllModules(ns[..n]) + ns[n].modules);
      assert r.collectors == c.collectors + (AllCollectors(ns[..n]) + ns[n].collectors);
    }
  }

  lemma {:induction false} PostOrderLast(t: ConfigTree)
    ensures |PostOrder(t)| > 0 && PostOrder(t)[|PostOrder(t)| - 1] == t.data
    ensures PostOrder(t)[..|PostOrder(t)| - 1] == PostForest(t.children)
  {
  }

  predicate TreeOptionsAreDicts(t: ConfigTree)
  {
    OptionsAreDicts(PostOrder(t))
  }

  /**
   * `flatten` as intended: the root's options, output path and cache
   * folder override those of every file it extends; otherwise they come
   * from the last node in post-order that sets them; the repositories
   * and modules are those of all nodes, each once.
   */
  lemma FlattenSpec(t: ConfigTree, k: string)
    requires TreeOptionsAreDicts(t)
    ensures var f := Flatten(t);
      var ns := PostOrder(t);
      Get(f.options, k) == LastOption(ns, k) &&
      (k in Keys(t.data.options) ==> Get(f.options, k) == Get(t.data.options, k)) &&
      f.outpath == LastOutpath(ns) && (t.data.outpath.Some? ==> f.outpath == t.data.outpath) &&
      f.cachefolder == LastCacheFolder(ns) && (t.data.cachefolder.Some? ==> f.cachefolder == t.data.cachefolder) &&
      f.filename == t.data.filename &&
      (forall r :: r in f.repositories <==> r in AllRepositories(ns)) &&
      (forall i, j :: 0 <= i < j < |f.repositories| ==> f.repositories[i] != f.repositories[j]) &&
      (forall m :: m in f.modules <==> m in AllModules(ns)) &&
      f.collectors == AllCollectors(ns)
  {
    var ns := PostOrder(t);
    var c := Empty.(filename := t.data.filename);
    AbsorbAllOptions(c, ns, k);
    AbsorbAllPaths(c, ns);
    AbsorbAllLists(c, ns);
    PostOrderLast(t);
  }

  /** On a chain `flatten` as written visits every node in post-order. */
  lemma {:induction false} VisitChain(t: ConfigTree)
    requires Chain(t)
    ensures VisitAsWritten(t, []) == PostOrder(t)
    decreases t
  {
    if |t.children| == 1 {
      VisitChain(t.children[0]);
      assert t.children[..0] == [];
      assert PostForest(t.children) == PostOrder(t.children[0]) by { assert t.children[..0] == []; }
    }
  }

  lemma FlattenChain(t: ConfigTree)
    requires Chain(t)
    ensures FlattenAsWritten(t) == Flatten(t)
  {
    VisitChain(t);
  }

  /**
   * A file X extending Y and Z, where Y itself extends W: `flatten` as
   * written never visits W, so W's repository is lost; as intended it is
   * kept.
   */
  lemma FlattenAsWrittenDropsNested()
    ensures var w := ConfigTree(Empty.(filename := "w.xml", repositories := ["w/repo.lb"]), []);
      var y := ConfigTree(Empty.(filename := "y.xml"), [w]);
      var z := ConfigTree(Empty.(filename := "z.xml"), []);
      var x := ConfigTree(Empty.(filename := "x.xml"), [y, z]);
      "w/repo.lb" !in FlattenAsWritten(x).repositories && "w/repo.lb" in Flatten(x).repositories
  {
    NestedAsWritten();
    NestedIntended();
  }

  /** The tree of `FlattenAsWrittenDropsNested`: X extends Y and Z, and Y extends W. */
  function NestedExample(): ConfigTree
  {
    var w := ConfigTree(Empty.(filename := "w.xml", repositories := ["w/repo.lb"]), []);
    var y := ConfigTree(Empty.(filename := "y.xml"), [w]);
    var z := ConfigTree(Empty.(filename := "z.xml"), []);
    ConfigTree(Empty.(filename := "x.xml"), [y, z])
  }

  lemma NestedAsWritten()
    ensures "w/repo.lb" !in FlattenAsWritten(NestedExample()).repositories
  {
    var x := NestedExample();
    var y, z := x.children[0], x.children[1];
    var visited := VisitAsWritten(x, []);
    assert VisitAsWritten(z, [y.data]) == [y.data, z.data];
    assert Datas([y, z][..1]) == [y.data] by { assert [y, z][..1] == [y]; }
    assert visited == [y.data, z.data, x.data];
    var c := Empty.(filename := "x.xml");
    AbsorbAllLists(c, visited);
    assert AllRepositories(visited) == [] by {
      assert [y.data][..0] == [];
      assert AllRepositories([y.data]) == [];
      assert [y.data, z.data][..1] == [y.data];
      assert AllRepositories([y.data, z.data]) == [];
      assert visited[..2] == [y.data, z.data];
    }
  }

  lemma NestedIntended()
    ensures "w/repo.lb" in Flatten(NestedExample()).repositories
  {
    var x := NestedExample();
    var ns := PostOrder(x);
    NestedPostOrder();
    AbsorbAllLists(Empty.(filename := "x.xml"), ns);
    assert "w/repo.lb" in AllRepositories(ns) by {
      assert ns[..1] == [ns[0]];
      assert [ns[0]][..0] == [];
      AllRepositoriesMono(ns, 1);
    }
  }

  /** The post-order of the example: W, Y, Z, X. */
  lemma NestedPostOrder()
    ensures var x := NestedExample();
      PostOrder(x) == [x.children[0].children[0].data, x.children[0].data, x.children[1].data, x.data]
  {
    var x := NestedExample();
    var y, z := x.children[0], x.children[1];
    var w := y.children[0];
    assert PostOrder(w) == [w.data];
    assert PostForest([w]) == [w.data] by { assert [w][..0] == []; }
    assert PostOrder(y) == [w.data, y.data];
    assert PostForest([y, z]) == PostOrder(y) + PostOrder(z) by {
      assert [y, z][..1] == [y];
      assert [y][..0] == [];
    }
  }

  lemma {:induction false} AllRepositoriesMono(ns: seq<ConfigData>, n: nat)
    requires n <= |ns|
    ensures forall r :: r in AllRepositories(ns[..n]) ==> r in AllRepositories(ns)
    decreases |ns| - n
  {
    if n < |ns| {
      AllRepositoriesMono(ns, n + 1);
      assert ns[..n + 1][..n] == ns[..n];
    } else {
      assert ns[..n] == ns;
    }
  }

  // --------------------------------------------- environment substitution

  /** An XML element: tag, attributes in document order, text and child elements. */
  datatype Element = Element(tag: string, attrib: seq<(string, string)>, text: Option<string>, children: seq<Element>)

  /** Index of the first `}` or line break at or after `i`: where the lazy `.*?` of a key must stop. */
  function CloseAt(s: string, i: nat): (r: Option<nat>)
    requires i <= |s|
    ensures r.Some? ==> i <= r.value < |s| && (s[r.value] == '}' || s[r.value] == '\n')
    ensures forall j :: i <= j < (if r.Some? then r.value else |s|) ==> s[j] != '}' && s[j] != '\n'
    decreases |s| - i
  {
    if i == |s| then None
    else if s[i] == '}' || s[i] == '\n' then Some(i)
    else CloseAt(s, i + 1)
  }

  /**
   * `re.findall(r'\${(.*?)}', text)`: scanning from the left, each `${`
   * followed by a `}` before any line break yields the text in between,
   * and the scan resumes after that `}`.
   */
  function FindKeys(s: string): seq<string>
    decreases |s|
  {
    if |s| < 2 then []
    else if s[0] == '$' && s[1] == '{' then
      var close := CloseAt(s, 2);
      if close.Some? && s[close.value] == '}' then [s[2..close.value]] + FindKeys(s[close.value + 1..])
      else FindKeys(s[1..])
    else FindKeys(s[1..])
  }

  function Placeholder(k: string): string
  {
    "${" + k + "}"
  }

  lemma OccursShift(s: string, d: nat, p: string, j: int)
    requires d <= |s| && Text.OccursAt(s[d..], p, j)
    ensures Text.OccursAt(s, p, j + d)
  {
    assert s[d..][j..j + |p|] == s[j + d..j + d + |p|];
  }

  /**
   * Every key found has its placeholder `${key}` in the text, and holds
   * neither a `}` nor a line break; a text without `$` has no keys.
   */
  lemma FindKeysSpec(s: string)
    ensures forall i :: 0 <= i < |FindKeys(s)| ==>
      '}' !in FindKeys(s)[i] && '\n' !in FindKeys(s)[i] && exists j :: Text.OccursAt(s, Placeholder(FindKeys(s)[i]), j)
    ensures '$' !in s ==> FindKeys(s) == []
  {
    FindKeysFree(s);
    FindKeysPlaced(s);
    FindKeysNoDollar(s);
  }

  lemma {:induction false} FindKeysFree(s: string)
    ensures forall i :: 0 <= i < |FindKeys(s)| ==> '}' !in FindKeys(s)[i] && '\n' !in FindKeys(s)[i]
    decreases |s|
  {
    if |s| >= 2 {
      var close := CloseAt(s, 2);
      if s[0] == '$' && s[1] == '{' && close.Some? && s[close.value] == '}' {
        var c := close.value;
        FindKeysFree(s[c + 1..]);
        var k := s[2..c];
        assert FindKeys(s) == [k] + FindKeys(s[c + 1..]);
        assert forall x :: 0 <= x < |k| ==> k[x] == s[2 + x];
      } else {
        FindKeysFree(s[1..]);
      }
    }
  }

  lemma {:induction false} FindKeysNoDollar(s: string)
    ensures '$' !in s ==> FindKeys(s) == []
    decreases |s|
  {
    if |s| >= 2 && '$' !in s {
      assert '$' !in s[1..];
      FindKeysNoDollar(s[1..]);
    }
  }

  /** The placeholder `${k}` occurs in `s`. */
  ghost predicate Placed(s: string, k: string)
  {
    exists j :: Text.OccursAt(s, Placeholder(k), j)
  }

  lemma {:induction false} FindKeysPlaced(s: string)
    ensures forall i :: 0 <= i < |FindKeys(s)| ==> Placed(s, FindKeys(s)[i])
    decreases |s|
  {
    if |s| < 2 {
      assert FindKeys(s) == [];
    } else {
      var close := CloseAt(s, 2);
      if s[0] == '$' && s[1] == '{' && close.Some? && s[close.value] == '}' {
        var c := close.value;
        var rest := s[c + 1..];
        FindKeysPlaced(rest);
        var k := s[2..c];
        var keys := FindKeys(s);
        assert keys == [k] + FindKeys(rest);
        assert s[0..|Placeholder(k)|] == Placeholder(k);
        assert Text.OccursAt(s, Placeholder(k), 0);
        forall i | 0 <= i < |keys|
          ensures Placed(s, keys[i])
        {
          if i > 0 {
            var key := FindKeys(rest)[i - 1];
            assert keys[i] == key && Placed(rest, key);
            var j :| Text.OccursAt(rest, Placeholder(key), j);
            OccursShift(s, c + 1, Placeholder(key), j);
          }
        }
      } else {
        FindKeysPlaced(s[1..]);
        assert FindKeys(s) == FindKeys(s[1..]);
        forall i | 0 <= i < |FindKeys(s)|
          ensures Placed(s, FindKeys(s)[i])
        {
          var key := FindKeys(s[1..])[i];
          assert Placed(s[1..], key);
          var j :| Text.OccursAt(s[1..], Placeholder(key), j);
          OccursShift(s, 1, Placeholder(key), j);
        }
      }
    }
  }

  /** The error raised for a variable that is unset or empty; it names the variable. */
  function SubstitutionError(k: string): Error
  {
    Raised(LbuildError, k)
  }

  predicate Defined(env: map<string, string>, k: string)
  {
    k in env && env[k] != ""
  }

  /** Each key's placeholder replaced by its value in turn, failing at the first key not defined. */
  function SubstituteKeys(text: string, keys: seq<string>, env: map<string, string>): Result<string>
    decreases |keys|
  {
    if |keys| == 0 then Success(text)
    else if Defined(env, keys[0]) then SubstituteKeys(Text.Replace(text, Placeholder(keys[0]), env[keys[0]]), keys[1..], env)
    else Failure(SubstitutionError(keys[0]))
  }

  /** The keys of a text that `_substitute_env` looks at: only a non-empty text holding a `$`. */
  function TextKeys(text: Option<string>): seq<string>
  {
    if text.Some? && text.value != "" && '$' in text.value then FindKeys(text.value) else []
  }

  function SubstituteText(text: Option<string>, env: map<string, string>): Result<Option<string>>
  {
    if text.Some? && text.value != "" && '$' in text.value then
      var r :- SubstituteKeys(text.value, FindKeys(text.value), env);
      Success(Some(r))
    else Success(text)
  }

  /** One element: its text, then its children in order. */
  function SubstituteElement(e: Element, env: map<string, string>): Result<Element>
    decreases e
  {
    var text :- SubstituteText(e.text, env);
    var children :- SubstituteForest(e.children, env);
    Success(e.(text := text, children := children))
  }

  function SubstituteForest(cs: seq<Element>, env: map<string, string>): Result<seq<Element>>
    decreases cs
  {
    if |cs| == 0 then Success([])
    else
      var init :- SubstituteForest(cs[..|cs| - 1], env);
      var last :- SubstituteElement(cs[|cs| - 1], env);
      Success(init + [last])
  }

  /** `_substitute_env(root)`: the children of the root, depth-first; the root's own text is left alone. */
  function Substitute(root: Element, env: map<string, string>): Result<Element>
  {
    var children :- SubstituteForest(root.children, env);
    Success(root.(children := children))
  }

  /** Every key in the text of an element of the tree is defined. */
  predicate ElementDefined(e: Element, env: map<string, string>)
    decreases e
  {
    (forall k :: k in TextKeys(e.text) ==> Defined(env, k)) && ForestDefined(e.children, env)
  }

  predicate ForestDefined(cs: seq<Element>, env: map<string, string>)
    decreases cs
  {
    |cs| == 0 || (ForestDefined(cs[..|cs| - 1], env) && ElementDefined(cs[|cs| - 1], env))
  }

  /** An element with every text erased: what substitution must not change. */
  function Skeleton(e: Element): Element
    decreases e
  {
    e.(text := None, children := SkeletonForest(e.children))
  }

  function SkeletonForest(cs: seq<Element>): (r: seq<Element>)
    ensures |r| == |cs|
    decreases cs
  {
    if |cs| == 0 then [] else SkeletonForest(cs[..|cs| - 1]) + [Skeleton(cs[|cs| - 1])]
  }

  lemma {:induction false} SubstituteKeysSpec(text: string, keys: seq<string>, env: map<string, string>)
    ensures SubstituteKeys(text, keys, env).Success? <==> forall k :: k in keys ==> Defined(env, k)
    ensures SubstituteKeys(text, keys, env).Failure? ==>
      (exists k :: k in keys && !Defined(env, k) && SubstituteKeys(text, keys, env).error == SubstitutionError(k))
    decreases |keys|
  {
    if |keys| > 0 && Defined(env, keys[0]) {
      SubstituteKeysSpec(Text.Replace(text, Placeholder(keys[0]), env[keys[0]]), keys[1..], env);
      assert keys == [keys[0]] + keys[1..];
    }
  }

  /**
   * Substitution succeeds exactly when every key in every element text
   * it looks at is set to a non-empty value, and then changes only texts.
   */
  lemma {:induction false} SubstituteElementSpec(e: Element, env: map<string, string>)
    ensures SubstituteElement(e, env).Success? <==> ElementDefined(e, env)
    ensures SubstituteElement(e, env).Success? ==> Skeleton(SubstituteElement(e, env).value) == Skeleton(e)
    decreases e
  {
    SubstituteKeysSpec(if e.text.Some? then e.text.value else "", TextKeys(e.text), env);
    SubstituteForestSpec(e.children, env);
  }

  lemma {:induction false} SubstituteForestSpec(cs: seq<Element>, env: map<string, string>)
    ensures SubstituteForest(cs, env).Success? <==> ForestDefined(cs, env)
    ensures SubstituteForest(cs, env).Success? ==> SkeletonForest(SubstituteForest(cs, env).value) == SkeletonForest(cs)
    decreases cs
  {
    if |cs| > 0 {
      var n := |cs| - 1;
      SubstituteForestSpec(cs[..n], env);
      SubstituteElementSpec(cs[n], env);
      if SubstituteForest(cs, env).Success? {
        var init := SubstituteForest(cs[..n], env).value;
        var last := SubstituteElement(cs[n], env).value;
        assert SubstituteForest(cs, env).value == init + [last];
        assert (init + [last])[..n] == init;
      }
    }
  }

  /**
   * `_substitute_env` succeeds exactly when every key below the root is
   * defined; it keeps the root's text, tag and attributes and changes no
   * element's tag, attributes or place, only texts.
   */
  lemma SubstituteSpec(root: Element, env: map<string, string>)
    ensures Substitute(root, env).Success? <==> ForestDefined(root.children, env)
    ensures Substitute(root, env).Success? ==>
      Substitute(root, env).value.text == root.text && Skeleton(Substitute(root, env).value) == Skeleton(root)
  {
    SubstituteForestSpec(root.children, env);
  }

  // ------------------------------------------------------------- to_dict

  /** The children with tag `tag`, converted, in document order. */
  function Tagged(cs: seq<Element>, tag: string): seq<Value>
    decreases |cs|
  {
    if |cs| == 0 then []
    else Tagged(cs[..|cs| - 1], tag) + (if cs[|cs| - 1].tag == tag then [Inner(cs[|cs| - 1])] else [])
  }

  /** The converted children grouped by tag, tags in order of first appearance (`defaultdict(list)`). */
  function Grouped(cs: seq<Element>): seq<(string, seq<Value>)>
    decreases cs
  {
    if |cs| == 0 then []
    else
      var g := Grouped(cs[..|cs| - 1]);
      var c := cs[|cs| - 1];
      Put(g, c.tag, (if Get(g, c.tag).Some? then Get(g, c.tag).value else []) + [Inner(c)])
  }

  /** One value stands for itself, several become a list. */
  function Collapse(g: seq<(string, seq<Value>)>): seq<(string, Value)>
  {
    if |g| == 0 then []
    else [(g[0].0, if |g[0].1| == 1 then g[0].1[0] else SeqV(ListKind, g[0].1))] + Collapse(g[1..])
  }

  /** The attributes under keys `@name`. */
  function AttribEntries(a: seq<(string, string)>): (r: seq<(string, Value)>)
    ensures |r| == |a|
  {
    if |a| == 0 then [] else [("@" + a[0].0, StrV(a[0].1))] + AttribEntries(a[1..])
  }

  /** The stripped text, `""` when there is none. */
  function StrippedText(e: Element): string
  {
    if e.text.Some? && e.text.value != "" then Text.Strip(e.text.value) else ""
  }

  /** The dict under the tag of an element with children or attributes, given its grouped children. */
  function Fields(e: Element, kids: seq<(string, Value)>): seq<(string, Value)>
  {
    var d := Update(kids, AttribEntries(e.attrib));
    if StrippedText(e) != "" then Put(d, "#text", StrV(StrippedText(e))) else d
  }

  function AsDict(d: seq<(string, Value)>): (r: seq<(Value, Value)>)
    ensures |r| == |d| && forall i :: 0 <= i < |d| ==> r[i] == (StrV(d[i].0), d[i].1)
  {
    if |d| == 0 then [] else [(StrV(d[0].0), d[0].1)] + AsDict(d[1..])
  }

  /** What `to_dict` maps an element's tag to. */
  function Inner(e: Element): Value
    decreases e
  {
    if |e.children| > 0 || |e.attrib| > 0 then
      DictV(AsDict(Fields(e, if |e.children| > 0 then Collapse(Grouped(e.children)) else [])))
    else if e.text.Some? && e.text.value != "" then StrV(Text.Strip(e.text.value))
    else NoneV
  }

  /** `to_dict(element)`: `{tag: ...}`. */
  function ToDict(e: Element): Value
  {
    DictV([(StrV(e.tag), Inner(e))])
  }

  /** XML names start with neither `@` nor `#`, so they never clash with attribute or text keys. */
  predicate XmlName(s: string)
  {
    |s| > 0 && s[0] != '@' && s[0] != '#'
  }

  lemma {:induction false} TaggedNone(cs: seq<Element>, tag: string)
    requires forall i :: 0 <= i < |cs| ==> cs[i].tag != tag
    ensures Tagged(cs, tag) == []
    decreases |cs|
  {
    if |cs| > 0 {
      TaggedNone(cs[..|cs| - 1], tag);
    }
  }

  /** Grouping keeps, per tag, exactly the converted children of that tag, in document order. */
  lemma {:induction false} GroupedSpec(cs: seq<Element>, tag: string)
    ensures Get(Grouped(cs), tag) == if |Tagged(cs, tag)| == 0 then None else Some(Tagged(cs, tag))
    decreases |cs|
  {
    if |cs| > 0 {
      var n := |cs| - 1;
      GroupedSpec(cs[..n], tag);
      var g := Grouped(cs[..n]);
      var c := cs[n];
      var prev := if Get(g, c.tag).Some? then Get(g, c.tag).value else [];
      assert Grouped(cs) == Put(g, c.tag, prev + [Inner(c)]);
      PutGet(g, c.tag, prev + [Inner(c)], tag);
      if c.tag == tag {
        assert Tagged(cs, tag) == Tagged(cs[..n], tag) + [Inner(c)];
      } else {
        assert Tagged(cs, tag) == Tagged(cs[..n], tag);
      }
    }
  }

  lemma {:induction false} CollapseGet(g: seq<(string, seq<Value>)>, k: string)
    ensures Get(Collapse(g), k) == match Get(g, k)
      case None => None
      case Some(vs) => Some(if |vs| == 1 then vs[0] else SeqV(ListKind, vs))
    decreases |g|
  {
    if |g| > 0 {
      CollapseGet(g[1..], k);
      assert Collapse(g) == [(g[0].0, if |g[0].1| == 1 then g[0].1[0] else SeqV(ListKind, g[0].1))] + Collapse(g[1..]);
    }
  }

  /** The attribute entries: key `@name` maps to the attribute `name`, and no other key is present. */
  lemma {:induction false} AttribEntriesSpec(a: seq<(string, string)>, k: string)
    ensures Get(AttribEntries(a), k) ==
      if |k| > 0 && k[0] == '@' && Get(a, k[1..]).Some? then Some(StrV(Get(a, k[1..]).value)) else None
    ensures IsDict(a) ==> IsDict(AttribEntries(a))
    decreases |a|
  {
    if |a| > 0 {
      AttribEntriesSpec(a[1..], k);
      var key := "@" + a[0].0;
      assert key[1..] == a[0].0;
      if |k| > 0 && k[0] == '@' && k[1..] == a[0].0 {
        assert k == key;
      }
    }
    if IsDict(a) {
      AttribEntriesDict(a);
    }
  }

  /** Distinct attribute names give distinct `@` keys. */
  lemma AttribEntriesDict(a: seq<(string, string)>)
    requires IsDict(a)
    ensures IsDict(AttribEntries(a))
  {
    var r := AttribEntries(a);
    forall i, j | 0 <= i < j < |r|
      ensures r[i].0 != r[j].0
    {
      AttribKey(a, i);
      AttribKey(a, j);
      assert (r[i].0)[1..] == a[i].0;
      assert (r[j].0)[1..] == a[j].0;
    }
  }

  lemma {:induction false} AttribKey(a: seq<(string, string)>, i: nat)
    requires i < |a|
    ensures |AttribEntries(a)| == |a| && AttribEntries(a)[i] == ("@" + a[i].0, StrV(a[i].1))
    decreases i
  {
    if i > 0 {
      AttribKey(a[1..], i - 1);
    }
  }

  /**
   * `to_dict`: an element with neither children nor attributes maps to
   * its stripped text, or to None when it has no text; otherwise to a
   * dict in which each child tag maps to its one child's value or to the
   * list of its children's values, each attribute `name` sits under
   * `@name`, and a non-blank text under `#text`.
   */
  lemma ToDictSpec(e: Element, k: string)
    requires IsDict(e.attrib) && XmlName(k)
    requires forall i :: 0 <= i < |e.children| ==> XmlName(e.children[i].tag)
    ensures |e.children| == 0 && |e.attrib| == 0 ==>
      Inner(e) == if e.text.Some? && e.text.value != "" then StrV(Text.Strip(e.text.value)) else NoneV
    ensures |e.children| > 0 || |e.attrib| > 0 ==>
      var f := Fields(e, if |e.children| > 0 then Collapse(Grouped(e.children)) else []);
      var vs := Tagged(e.children, k);
      Inner(e) == DictV(AsDict(f)) &&
      Get(f, k) == (if |vs| == 0 then None else if |vs| == 1 then Some(vs[0]) else Some(SeqV(ListKind, vs))) &&
      Get(f, "#text") == (if StrippedText(e) != "" then Some(StrV(StrippedText(e))) else None) &&
      forall a :: a in Keys(e.attrib) ==> Get(f, "@" + a) == Some(StrV(Get(e.attrib, a).value))
  {
    if |e.children| > 0 || |e.attrib| > 0 {
      var kids := if |e.children| > 0 then Collapse(Grouped(e.children)) else [];
      var d := Update(kids, AttribEntries(e.attrib));
      AttribEntriesSpec(e.attrib, k);
      UpdateGet(kids, AttribEntries(e.attrib), k);
      PutGet(d, "#text", StrV(StrippedText(e)), k);
      GroupedSpec(e.children, k);
      CollapseGet(Grouped(e.children), k);
      if |e.children| == 0 {
        assert Tagged(e.children, k) == [];
      }
      AttribEntriesSpec(e.attrib, "#text");
      UpdateGet(kids, AttribEntries(e.attrib), "#text");
      if |e.children| > 0 {
        GroupedSpec(e.children, "#text");
        CollapseGet(Grouped(e.children), "#text");
        TaggedNone(e.children, "#text");
      }
      PutGet(d, "#text", StrV(StrippedText(e)), "#text");
      forall a | a in Keys(e.attrib)
        ensures Get(Fields(e, kids), "@" + a) == Some(StrV(Get(e.attrib, a).value))
      {
        AttribEntriesSpec(e.attrib, "@" + a);
        assert ("@" + a)[1..] == a;
        UpdateGet(kids, AttribEntries(e.attrib), "@" + a);
        PutGet(d, "#text", StrV(StrippedText(e)), "@" + a);
      }
    }
  }
}
