/*
 * Dependency resolution of blob, lbuild's predecessor, and of the
 * stand-alone `lbuild.py` script, which carries the same function: the
 * configured module list is extended in place, round by round, with the
 * dependencies of the modules added in the previous round, until a round
 * finds nothing new. `modules[m]['depends']` is the map `depends`; a name
 * it does not hold is a KeyError.
 */
module BlobParser {
  import opened Errors

  /** `config['modules']`: the list object the build works through. */
  class ModuleList {
    var items: seq<string>

    constructor(items: seq<string>)
      ensures this.items == items
    {
      this.items := items;
    }
  }

  /** Every name some module depends upon. */
  ghost function Names(depends: map<string, seq<string>>): set<string>
  {
    set m, d | m in depends && d in depends[m] :: d
  }

  ghost function Elems(xs: seq<string>): set<string>
  {
    set x | x in xs
  }

  /** Entry `i` of the list is known, and everything it depends upon is listed. */
  ghost predicate ClosedAt(list: seq<string>, depends: map<string, seq<string>>, i: nat)
    requires i < |list|
  {
    list[i] in depends && forall d :: d in depends[list[i]] ==> d in list
  }

  /** No entry from `n0` on repeats an earlier entry. */
  ghost predicate NoRepeats(list: seq<string>, n0: nat)
  {
    forall i, j :: n0 <= i < |list| && 0 <= j < i ==> list[i] != list[j]
  }

  /** Every entry from `n0` on is a dependency of an earlier, known entry. */
  ghost predicate Supported(list: seq<string>, depends: map<string, seq<string>>, n0: nat)
  {
    forall i :: n0 <= i < |list| ==> SupportedAt(list, depends, i)
  }

  /** Entry `i` is a dependency of a known entry before it. */
  ghost predicate SupportedAt(list: seq<string>, depends: map<string, seq<string>>, i: nat)
    requires i < |list|
  {
    exists j :: 0 <= j < i && list[j] in depends && list[i] in depends[list[j]]
  }

  /** Every pending name is a dependency of a known module of `current`. */
  ghost predicate Pending(additional: seq<string>, current: seq<string>, depends: map<string, seq<string>>)
  {
    forall d :: d in additional ==> exists m :: m in current && m in depends && d in depends[m]
  }

  lemma PendingSnoc(additional: seq<string>, current: seq<string>, depends: map<string, seq<string>>, m: string, d: string)
    requires Pending(additional, current, depends) && m in current && m in depends && d in depends[m]
    ensures Pending(additional + [d], current, depends)
  {
  }

  /**
   * One round, the `for m in current` loop: the dependencies of `current`
   * that are neither listed nor already pending, in the order they are
   * met, or the KeyError of the first name of `current` without an entry.
   */
  method Round(listed: seq<string>, current: seq<string>, depends: map<string, seq<string>>)
    returns (additional: seq<string>, err: Option<Error>)
    ensures err.Some? <==> exists i :: 0 <= i < |current| && current[i] !in depends
    ensures err.Some? ==> exists i :: (0 <= i < |current| && current[i] !in depends &&
      (forall j :: 0 <= j < i ==> current[j] in depends) && err.value == Raised(KeyError, current[i]))
    ensures err.None? ==> forall m :: m in current ==>
      m in depends && forall d :: d in depends[m] ==> d in listed || d in additional
    ensures forall k :: 0 <= k < |additional| ==> additional[k] !in listed
    ensures forall k, l :: 0 <= l < k < |additional| ==> additional[l] != additional[k]
    ensures Pending(additional, current, depends)
  {
    additional := [];
    for i := 0 to |current|
      invariant forall j :: 0 <= j < i ==> current[j] in depends
      invariant forall j :: 0 <= j < i ==>
        forall d :: d in depends[current[j]] ==> d in listed || d in additional
      invariant forall k :: 0 <= k < |additional| ==> additional[k] !in listed
      invariant forall k, l :: 0 <= l < k < |additional| ==> additional[l] != additional[k]
      invariant Pending(additional, current, depends)
    {
      var m := current[i];
      if m !in depends {
        assert current[i] !in depends;
        return additional, Some(Raised(KeyError, m));
      }
      var ds := depends[m];
      for l := 0 to |ds|
        invariant forall j :: 0 <= j < i ==>
          forall d :: d in depends[current[j]] ==> d in listed || d in additional
        invariant forall p :: 0 <= p < l ==> ds[p] in listed || ds[p] in additional
        invariant forall k :: 0 <= k < |additional| ==> additional[k] !in listed
        invariant forall k, l :: 0 <= l < k < |additional| ==> additional[l] != additional[k]
        invariant Pending(additional, current, depends)
      {
        var d := ds[l];
        if d !in listed && d !in additional {
          PendingSnoc(additional, current, depends, m, d);
          additional := additional + [d];
        }
      }
      assert forall d :: d in ds ==> d in listed || d in additional;
    }
    err := None;
  }

  /**
   * `resolve_dependencies(config, modules)`. The configured entries stay a
   * prefix of the list and every added entry is new and a dependency of an
   * entry before it; on return the list is closed under the dependencies,
   * and a KeyError names a listed module without an entry, the rounds
   * before it kept.
   */
  method ResolveDependencies(config: ModuleList, depends: map<string, seq<string>>) returns (err: Option<Error>)
    modifies config
    ensures |old(config.items)| <= |config.items| && config.items[..|old(config.items)|] == old(config.items)
    ensures NoRepeats(config.items, |old(config.items)|)
    ensures Supported(config.items, depends, |old(config.items)|)
    ensures err.None? ==> forall i :: 0 <= i < |config.items| ==> ClosedAt(config.items, depends, i)
    ensures err.Some? ==> exists m :: m in config.items && m !in depends && err.value == Raised(KeyError, m)
  {
    ghost var n0 := |config.items|;
    ghost var start := 0;
    var current := config.items;
    while true
      invariant 0 <= start <= |config.items| && current == config.items[start..]
      invariant n0 <= |config.items| && config.items[..n0] == old(config.items)
      invariant NoRepeats(config.items, n0) && Supported(config.items, depends, n0)
      invariant forall i :: 0 <= i < start ==> ClosedAt(config.items, depends, i)
      decreases |Names(depends) - Elems(config.items)|
    {
      var additional, e := Round(config.items, current, depends);
      if e.Some? {
        KeyErrorListed(config.items, start, depends, e.value);
        return e;
      }
      if |additional| == 0 {
        AllClosed(config.items, start, depends);
        return None;
      }
      ghost var list := config.items;
      RoundStep(list, start, current, additional, depends, n0);
      assert additional[0] in additional;
      var m :| m in current && m in depends && additional[0] in depends[m];
      Progress(list, additional, depends, m);
      config.items := config.items + additional;
      start := |list|;
      current := additional;
    }
  }

  lemma KeyErrorListed(list: seq<string>, start: nat, depends: map<string, seq<string>>, e: Error)
    requires start <= |list|
    requires exists i :: 0 <= i < |list[start..]| && list[start..][i] !in depends && e == Raised(KeyError, list[start..][i])
    ensures exists m :: m in list && m !in depends && e == Raised(KeyError, m)
  {
    var i :| 0 <= i < |list[start..]| && list[start..][i] !in depends && e == Raised(KeyError, list[start..][i]);
    assert list[start..][i] == list[start + i];
  }

  lemma AllClosed(list: seq<string>, start: nat, depends: map<string, seq<string>>)
    requires start <= |list| && forall i :: 0 <= i < start ==> ClosedAt(list, depends, i)
    requires forall m :: m in list[start..] ==> m in depends && forall d :: d in depends[m] ==> d in list || d in []
    ensures forall i :: 0 <= i < |list| ==> ClosedAt(list, depends, i)
  {
    forall i | start <= i < |list| ensures ClosedAt(list, depends, i) {
      assert list[i] == list[start..][i - start];
    }
  }

  /** A round that adds entries keeps the invariants of the loop, one more round closed. */
  lemma RoundStep(list: seq<string>, start: nat, current: seq<string>, additional: seq<string>,
                  depends: map<string, seq<string>>, n0: nat)
    requires start <= |list| && n0 <= |list| && current == list[start..]
    requires NoRepeats(list, n0) && Supported(list, depends, n0)
    requires forall i :: 0 <= i < start ==> ClosedAt(list, depends, i)
    requires forall m :: m in current ==>
      m in depends && forall d :: d in depends[m] ==> d in list || d in additional
    requires forall k :: 0 <= k < |additional| ==> additional[k] !in list
    requires forall k, l :: 0 <= l < k < |additional| ==> additional[l] != additional[k]
    requires Pending(additional, current, depends)
    ensures var next := list + additional;
      NoRepeats(next, n0) && Supported(next, depends, n0) &&
      (forall i :: 0 <= i < |list| ==> ClosedAt(next, depends, i)) &&
      next[..n0] == list[..n0]
  {
    var next := list + additional;
    forall i, j | n0 <= i < |next| && 0 <= j < i ensures next[i] != next[j] {
      if i >= |list| {
        assert next[i] == additional[i - |list|];
        if j >= |list| {
          assert next[j] == additional[j - |list|];
        } else {
          assert next[j] == list[j];
        }
      }
    }
    forall i | n0 <= i < |next| ensures SupportedAt(next, depends, i) {
      if i < |list| {
        assert next[i] == list[i];
        assert SupportedAt(list, depends, i);
        var j :| 0 <= j < i && list[j] in depends && list[i] in depends[list[j]];
        assert next[j] == list[j];
      } else {
        var k := i - |list|;
        assert next[i] == additional[k];
        assert additional[k] in additional;
        var m :| m in current && m in depends && additional[k] in depends[m];
        var j :| 0 <= j < |current| && current[j] == m;
        assert next[start + j] == m;
      }
    }
    forall i | 0 <= i < |list| ensures ClosedAt(next, depends, i) {
      assert next[i] == list[i];
      if i >= start {
        assert list[i] == current[i - start];
      } else {
        assert ClosedAt(list, depends, i);
      }
    }
    assert next[..n0] == list[..n0];
  }

  /** A round that adds a name not listed before brings the unlisted dependency names down by one at least. */
  lemma Progress(list: seq<string>, additional: seq<string>, depends: map<string, seq<string>>, m: string)
    requires |additional| > 0 && additional[0] !in list
    requires m in depends && additional[0] in depends[m]
    ensures |Names(depends) - Elems(list + additional)| < |Names(depends) - Elems(list)|
  {
    var a := Names(depends) - Elems(list + additional);
    var b := Names(depends) - Elems(list);
    var x := additional[0];
    assert x in Names(depends);
    assert x in b && x !in a;
    var c := b - a;
    assert x in c;
    assert b == a + c && a * c == {};
  }
}
