/*
 * Python's `sorted()` on values ordered by a tuple of strings: the tuple
 * order, a stable insertion sort, and sorting a set of strings.
 */
module Sorting {
  import Text

  /** Python's `<` on tuples of strings: the first differing field decides, a proper prefix first. */
  predicate KeyLess(a: seq<string>, b: seq<string>)
  {
    if |a| == 0 then |b| > 0
    else if |b| == 0 then false
    else Text.LexLess(a[0], b[0]) || (a[0] == b[0] && KeyLess(a[1..], b[1..]))
  }

  lemma {:induction false} KeyIrreflexive(a: seq<string>)
    ensures !KeyLess(a, a)
    decreases |a|
  {
    if |a| > 0 {
      Text.LexIrreflexive(a[0]);
      KeyIrreflexive(a[1..]);
    }
  }

  lemma {:induction false} KeyTransitive(a: seq<string>, b: seq<string>, c: seq<string>)
    requires KeyLess(a, b) && KeyLess(b, c)
    ensures KeyLess(a, c)
    decreases |a|
  {
    if |a| > 0 && |b| > 0 && |c| > 0 {
      Text.LexIrreflexive(a[0]);
      Text.LexIrreflexive(b[0]);
      if a[0] == b[0] && b[0] == c[0] {
        KeyTransitive(a[1..], b[1..], c[1..]);
      } else if Text.LexLess(a[0], b[0]) && Text.LexLess(b[0], c[0]) {
        Text.LexTransitive(a[0], b[0], c[0]);
      }
    }
  }

  lemma {:induction false} KeyTotal(a: seq<string>, b: seq<string>)
    ensures a == b || KeyLess(a, b) || KeyLess(b, a)
    decreases |a|
  {
    if |a| > 0 && |b| > 0 {
      Text.LexTotal(a[0], b[0]);
      if a[0] == b[0] {
        KeyTotal(a[1..], b[1..]);
        if a[1..] == b[1..] {
          assert a == [a[0]] + a[1..] && b == [b[0]] + b[1..];
        }
      }
    }
  }

  /** If neither `b < a` nor `c < b`, then not `c < a`. */
  lemma NotLessTransitive(a: seq<string>, b: seq<string>, c: seq<string>)
    requires !KeyLess(b, a) && !KeyLess(c, b)
    ensures !KeyLess(c, a)
  {
    if KeyLess(c, a) {
      KeyTotal(a, b);
      if KeyLess(a, b) {
        KeyTransitive(c, a, b);
      }
    }
  }

  /** No later element's key is smaller than an earlier one's. */
  ghost predicate SortedBy<T>(r: seq<T>, key: T -> seq<string>)
  {
    forall i, j :: 0 <= i < j < |r| ==> !KeyLess(key(r[j]), key(r[i]))
  }

  /** Insert `x` before the first element whose key is greater, that is after every element not greater than it. */
  function Insert<T>(x: T, r: seq<T>, key: T -> seq<string>): (t: seq<T>)
    ensures multiset(t) == multiset(r) + multiset{x}
  {
    if |r| == 0 then [x]
    else if KeyLess(key(x), key(r[0])) then [x] + r
    else
      assert r == [r[0]] + r[1..];
      [r[0]] + Insert(x, r[1..], key)
  }

  /** Inserting into a sorted list keeps it sorted. */
  lemma {:induction false} InsertSorted<T>(x: T, r: seq<T>, key: T -> seq<string>)
    requires SortedBy(r, key)
    ensures SortedBy(Insert(x, r, key), key)
    decreases |r|
  {
    if |r| > 0 {
      var t := Insert(x, r, key);
      if KeyLess(key(x), key(r[0])) {
        forall j | 0 < j < |t| ensures !KeyLess(key(t[j]), key(x)) {
          assert t[j] == r[j - 1];
          if KeyLess(key(r[j - 1]), key(x)) {
            KeyTransitive(key(r[j - 1]), key(x), key(r[0]));
            if j == 1 {
              KeyIrreflexive(key(r[0]));
            }
          }
        }
      } else {
        var rest := r[1..];
        assert SortedBy(rest, key) by {
          forall i, j | 0 <= i < j < |rest| ensures !KeyLess(key(rest[j]), key(rest[i])) {
            assert rest[i] == r[i + 1] && rest[j] == r[j + 1];
          }
        }
        InsertSorted(x, rest, key);
        var u := Insert(x, rest, key);
        assert t == [r[0]] + u;
        forall j | 0 <= j < |u| ensures !KeyLess(key(u[j]), key(r[0])) {
          assert u[j] in multiset(u);
          if u[j] != x {
            assert u[j] in multiset(rest);
            var k :| 0 <= k < |rest| && rest[k] == u[j];
            assert r[k + 1] == u[j];
          }
        }
      }
    }
  }

  /** `sorted(s, key=key)`: a stable insertion sort. */
  function Sort<T>(s: seq<T>, key: T -> seq<string>): (r: seq<T>)
    ensures multiset(r) == multiset(s)
  {
    if |s| == 0 then []
    else
      assert s == s[..|s| - 1] + [s[|s| - 1]];
      Insert(s[|s| - 1], Sort(s[..|s| - 1], key), key)
  }

  /** The sorted list is in key order. */
  lemma {:induction false} SortSorted<T>(s: seq<T>, key: T -> seq<string>)
    ensures SortedBy(Sort(s, key), key)
    decreases |s|
  {
    if |s| > 0 {
      SortSorted(s[..|s| - 1], key);
      InsertSorted(s[|s| - 1], Sort(s[..|s| - 1], key), key);
    }
  }

  /** A list of strings in strictly increasing order. */
  ghost predicate StrictlySorted(r: seq<string>)
  {
    forall i, j :: 0 <= i < j < |r| ==> Text.LexLess(r[i], r[j])
  }

  ghost predicate NoDuplicates<T>(r: seq<T>)
  {
    forall i, j :: 0 <= i < j < |r| ==> r[i] != r[j]
  }

  function Single(x: string): seq<string>
  {
    [x]
  }

  lemma {:induction false} CountAtMostOne<T>(b: seq<T>, x: T)
    requires NoDuplicates(b)
    ensures multiset(b)[x] <= 1
    decreases |b|
  {
    if |b| > 0 {
      var init := b[..|b| - 1];
      assert b == init + [b[|b| - 1]];
      CountAtMostOne(init, x);
      if b[|b| - 1] == x {
        assert x !in init;
      }
    }
  }

  /** A permutation of a list without duplicates has none either. */
  lemma NoDuplicatesPermutation<T>(a: seq<T>, b: seq<T>)
    requires multiset(a) == multiset(b) && NoDuplicates(b)
    ensures NoDuplicates(a)
  {
    forall i, j | 0 <= i < j < |a| ensures a[i] != a[j] {
      if a[i] == a[j] {
        assert a == a[..i] + [a[i]] + a[i + 1..j] + [a[j]] + a[j + 1..];
        assert multiset(a)[a[i]] >= 2;
        CountAtMostOne(b, a[i]);
      }
    }
  }

  /** `sorted(list(s))` for a set of strings. */
  method SortSet(s: set<string>) returns (r: seq<string>)
    ensures StrictlySorted(r)
    ensures forall x :: x in r <==> x in s
  {
    var items: seq<string> := [];
    var rest := s;
    while rest != {}
      invariant rest <= s && NoDuplicates(items)
      invariant forall x :: x in items <==> x in s && x !in rest
      decreases |rest|
    {
      var x :| x in rest;
      items := items + [x];
      rest := rest - {x};
    }
    r := Sort(items, Single);
    SortSorted(items, Single);
    NoDuplicatesPermutation(r, items);
    forall x ensures x in r <==> x in items {
      assert x in r <==> x in multiset(r);
      assert x in items <==> x in multiset(items);
    }
    forall i, j | 0 <= i < j < |r| ensures Text.LexLess(r[i], r[j]) {
      assert !KeyLess(Single(r[j]), Single(r[i]));
      KeyTotal(Single(r[i]), Single(r[j]));
    }
  }
}
