/*
 * Shell-style pattern matching, in two flavours. `Match` is Python's
 * fnmatch.fnmatchcase, which the ignore lists of the file walks use: `*`
 * matches any run of characters, `?` one character, `[...]` / `[!...]` a
 * character class of single characters and `a-z` ranges, and an unclosed
 * `[` is a literal. `WildMatch` is the translation anytree's Resolver.glob
 * applies to each name segment: only `*` and `?` are special there.
 */
module Glob {
  import opened Errors

  /** True for a segment that anytree treats as a wildcard. */
  predicate IsWildcard(pat: string)
  {
    '*' in pat || '?' in pat
  }

  /** No character of the pattern has a special meaning. */
  predicate IsLiteral(pat: string)
  {
    forall k :: 0 <= k < |pat| ==> pat[k] != '*' && pat[k] != '?' && pat[k] != '['
  }

  /**
   * Index of the `]` closing the class that opens at `pat[0] == '['`, as
   * fnmatch.translate finds it: a leading `!` and then a leading `]` belong to
   * the class.
   */
  function ClassEnd(pat: string): (r: Option<nat>)
    requires |pat| > 0 && pat[0] == '['
    ensures r.Some? ==> 1 < r.value < |pat| && pat[r.value] == ']'
  {
    var j := if 1 < |pat| && pat[1] == '!' then 2 else 1;
    var j' := if j < |pat| && pat[j] == ']' then j + 1 else j;
    FindClose(pat, j')
  }

  function FindClose(pat: string, j: nat): (r: Option<nat>)
    ensures r.Some? ==> j <= r.value < |pat| && pat[r.value] == ']'
    decreases |pat| - j
  {
    if j >= |pat| then None
    else if pat[j] == ']' then Some(j)
    else FindClose(pat, j + 1)
  }

  /** Membership of `c` in the class body `body` (without brackets). */
  predicate InClass(c: char, body: string)
  {
    if |body| > 0 && body[0] == '!' then !InItems(c, body[1..]) else InItems(c, body)
  }

  predicate InItems(c: char, items: string)
    decreases |items|
  {
    if |items| == 0 then false
    else if |items| >= 3 && items[1] == '-' then
      (items[0] <= c <= items[2]) || InItems(c, items[3..])
    else
      c == items[0] || InItems(c, items[1..])
  }

  /** `fnmatch.fnmatchcase(name, pat)`. */
  predicate Match(name: string, pat: string)
    decreases |name| + |pat|
  {
    if |pat| == 0 then |name| == 0
    else if pat[0] == '*' then
      Match(name, pat[1..]) || (|name| > 0 && Match(name[1..], pat))
    else if pat[0] == '?' then
      |name| > 0 && Match(name[1..], pat[1..])
    else if pat[0] == '[' && ClassEnd(pat).Some? then
      var k := ClassEnd(pat).value;
      |name| > 0 && InClass(name[0], pat[1..k]) && Match(name[1..], pat[k + 1..])
    else
      |name| > 0 && name[0] == pat[0] && Match(name[1..], pat[1..])
  }

  /** A pattern without special characters matches exactly itself. */
  lemma {:induction false} LiteralMatch(name: string, pat: string)
    requires IsLiteral(pat)
    ensures Match(name, pat) <==> name == pat
    decreases |pat|
  {
    if |pat| > 0 {
      assert IsLiteral(pat[1..]);
      if |name| > 0 {
        LiteralMatch(name[1..], pat[1..]);
        if name[0] == pat[0] && name[1..] == pat[1..] {
          assert name == [name[0]] + name[1..];
          assert pat == [pat[0]] + pat[1..];
        }
      }
    }
  }

  /** A lone `*` matches every name. */
  lemma {:induction false} StarMatchesAll(name: string)
    ensures Match(name, "*")
    decreases |name|
  {
    if |name| > 0 {
      StarMatchesAll(name[1..]);
    }
  }

  /** A lone `?` matches exactly the one-character names. */
  lemma QuestionMatchesOne(name: string)
    ensures Match(name, "?") <==> |name| == 1
  {
    assert "?"[1..] == "";
  }

  /** anytree's segment match: `*` any run of characters, `?` one, every other character itself. */
  predicate WildMatch(name: string, pat: string)
    decreases |name| + |pat|
  {
    if |pat| == 0 then |name| == 0
    else if pat[0] == '*' then
      WildMatch(name, pat[1..]) || (|name| > 0 && WildMatch(name[1..], pat))
    else if pat[0] == '?' then
      |name| > 0 && WildMatch(name[1..], pat[1..])
    else
      |name| > 0 && name[0] == pat[0] && WildMatch(name[1..], pat[1..])
  }

  /** Without `*` and `?`, anytree's match is plain equality. */
  lemma {:induction false} WildLiteral(name: string, pat: string)
    requires !IsWildcard(pat)
    ensures WildMatch(name, pat) <==> name == pat
    decreases |pat|
  {
    if |pat| > 0 {
      assert !IsWildcard(pat[1..]) by {
        assert forall c :: c in pat[1..] ==> c in pat;
      }
      assert pat[0] in pat;
      if |name| > 0 {
        WildLiteral(name[1..], pat[1..]);
        if name[0] == pat[0] && name[1..] == pat[1..] {
          assert name == [name[0]] + name[1..];
          assert pat == [pat[0]] + pat[1..];
        }
      }
    }
  }

  /** A `[` stands for itself in anytree's match, where fnmatch reads a class. */
  lemma BracketLiteral()
    ensures WildMatch("[a]", "[a]") && !WildMatch("a", "[a]")
    ensures Match("a", "[a]") && !Match("[a]", "[a]")
  {
    assert "[a]"[1..] == "a]" && "a]"[1..] == "]" && "]"[1..] == "";
    assert WildMatch("]", "]");
    assert WildMatch("a]", "a]");
    assert ClassEnd("[a]") == Some(2);
    assert "[a]"[1..2] == "a" && "[a]"[3..] == "";
    assert InClass('a', "a");
    assert !InClass('[', "a");
  }
}
