/*
 * lbuild/filter.py: the template filters lbuild registers for every module.
 */
module Filters {
  import opened Errors
  import opened PyValue
  import Text

  /** `DEFAULT_FILTERS`: registered name to the filter function it stands for. */
  const DefaultFilters: map<string, string> :=
    map["lbuild.wordwrap" := "wordwrap", "lbuild.indent" := "indent", "lbuild.pad" := "pad",
        "lbuild.values" := "values", "lbuild.split" := "split", "lbuild.listify" := "listify"]

  /** Every default filter is registered as `lbuild.` followed by its function's name. */
  lemma DefaultFiltersPrefixed(name: string)
    requires name in DefaultFilters
    ensures |name| > 7 && name[..7] == "lbuild." && name[7..] == DefaultFilters[name]
  {
  }

  /** `' ' * n`. */
  function Spaces(n: nat): (r: string)
    ensures |r| == n
    ensures forall k :: 0 <= k < n ==> r[k] == ' '
  {
    if n == 0 then "" else Spaces(n - 1) + " "
  }

  /** The lines with every line but the first prefixed. */
  function PrefixLater(lines: seq<string>, prefix: string): (r: seq<string>)
    ensures |r| == |lines|
  {
    seq(|lines|, i requires 0 <= i < |lines| => if i == 0 then lines[0] else prefix + lines[i])
  }

  /** `indent(text, spaces)`: the lines of the text joined by a newline and the indentation. */
  function IndentRest(text: string, spaces: nat): string
  {
    Text.Join(Text.SplitLines(text), "\n" + Spaces(spaces))
  }

  /** Joining with newline-plus-prefix is joining the lines, all but the first prefixed, by newlines. */
  lemma {:induction false} JoinShift(lines: seq<string>, prefix: string)
    ensures Text.Join(lines, "\n" + prefix) == Text.Join(PrefixLater(lines, prefix), "\n")
    decreases |lines|
  {
    if |lines| > 1 {
      var tail := lines[1..];
      JoinShift(tail, prefix);
      var pt := PrefixLater(tail, prefix);
      var pl := PrefixLater(lines, prefix);
      if |tail| == 1 {
        assert pl == [lines[0], prefix + tail[0]];
        assert Text.Join(pl, "\n") == lines[0] + "\n" + Text.Join(pl[1..], "\n");
        assert pl[1..] == [prefix + tail[0]];
      } else {
        // The later lines are prefixed in both joins, so move the prefix out of the separator.
        var shifted := [prefix + pt[0]] + pt[1..];
        assert pl == [lines[0]] + shifted;
        assert pl[1..] == shifted;
        JoinPrefixHead(pt, prefix);
        assert Text.Join(lines, "\n" + prefix) == lines[0] + "\n" + prefix + Text.Join(tail, "\n" + prefix);
      }
    }
  }

  /** Prefixing the joined text prefixes its first piece. */
  lemma JoinPrefixHead(parts: seq<string>, prefix: string)
    requires |parts| >= 1
    ensures prefix + Text.Join(parts, "\n") == Text.Join([prefix + parts[0]] + parts[1..], "\n")
  {
    if |parts| > 1 {
      var rest := Text.Join(parts[1..], "\n");
      Text.JoinCons(prefix + parts[0], parts[1..], "\n");
      assert Text.Join(parts, "\n") == parts[0] + "\n" + rest;
      ConcatAssociative(prefix, parts[0], "\n", rest);
    } else {
      assert [prefix + parts[0]] + parts[1..] == [prefix + parts[0]];
    }
  }

  lemma ConcatAssociative<T>(a: seq<T>, b: seq<T>, c: seq<T>, d: seq<T>)
    ensures a + (b + c + d) == a + b + c + d
  {
  }

  /** `indent(text, spaces)` leaves the first line alone and indents every later one. */
  lemma IndentRestLines(text: string, spaces: nat)
    ensures IndentRest(text, spaces) == Text.Join(PrefixLater(Text.SplitLines(text), Spaces(spaces)), "\n")
  {
    JoinShift(Text.SplitLines(text), Spaces(spaces));
  }

  /** The line-break positions inside one line of `s.splitlines(True)`. */
  lemma {:induction false} LineLengthBreaks(s: string, i: nat, j: nat)
    requires i < |s| && i <= j < Text.LineLength(s, i)
    requires Text.IsLineBreak(s[j])
    ensures j == Text.LineLength(s, i) - 1 ||
            (j == Text.LineLength(s, i) - 2 && s[j] == '\r' && s[j + 1] == '\n')
    decreases |s| - i
  {
    if !Text.IsLineBreak(s[i]) {
      LineLengthBreaks(s, i + 1, j);
    }
  }

  /** A line without a line break. */
  ghost predicate BreakFree(line: string)
  {
    forall c :: 0 <= c < |line| ==> !Text.IsLineBreak(line[c])
  }

  /** The first line of `s.splitlines()` holds no line break. */
  lemma FirstLineFree(s: string)
    requires |s| > 0
    ensures BreakFree(Text.DropLineEnd(s[..Text.LineLength(s, 0)]))
  {
    var n := Text.LineLength(s, 0);
    var line := s[..n];
    var first := Text.DropLineEnd(line);
    DropLineEndPrefix(line);
    forall c | 0 <= c < |first| ensures !Text.IsLineBreak(first[c]) {
      assert first[c] == line[c] == s[c];
      if Text.IsLineBreak(s[c]) {
        LineLengthBreaks(s, 0, c);
        TerminatorDropped(line, c);
      }
    }
  }

  /** A line break at the end of a line is part of the terminator that is dropped. */
  lemma TerminatorDropped(line: string, c: nat)
    requires c < |line| && Text.IsLineBreak(line[c])
    requires c == |line| - 1 || (c == |line| - 2 && line[c] == '\r' && line[c + 1] == '\n')
    ensures c >= |Text.DropLineEnd(line)|
  {
    DropLineEndPrefix(line);
  }

  /** A line without its terminator is a prefix of it, shorter by the terminator's length. */
  lemma DropLineEndPrefix(line: string)
    ensures var d := Text.DropLineEnd(line); |d| <= |line| && d == line[..|d|]
    ensures |line| >= 1 && Text.IsLineBreak(line[|line| - 1]) ==> |Text.DropLineEnd(line)| < |line|
    ensures |line| >= 2 && line[|line| - 2] == '\r' && line[|line| - 1] == '\n' ==>
      |Text.DropLineEnd(line)| == |line| - 2
  {
    if |line| >= 2 && line[|line| - 2] == '\r' && line[|line| - 1] == '\n' {
      assert line[|line| - 2..] == "\r\n";
    }
  }

  lemma AllBreakFree(first: string, rest: seq<string>)
    requires BreakFree(first) && forall k :: 0 <= k < |rest| ==> BreakFree(rest[k])
    ensures forall k :: 0 <= k < |[first] + rest| ==> BreakFree(([first] + rest)[k])
  {
    forall k | 0 <= k < |[first] + rest| ensures BreakFree(([first] + rest)[k]) {
      if k > 0 {
        assert ([first] + rest)[k] == rest[k - 1];
      }
    }
  }

  /** A line of `s.splitlines()` holds no line break. */
  lemma {:induction false} SplitLinesFree(s: string)
    ensures forall k :: 0 <= k < |Text.SplitLines(s)| ==> BreakFree(Text.SplitLines(s)[k])
    decreases |s|
  {
    if |s| > 0 {
      var n := Text.LineLength(s, 0);
      SplitLinesFree(s[n..]);
      FirstLineFree(s);
      AllBreakFree(Text.DropLineEnd(s[..n]), Text.SplitLines(s[n..]));
    }
  }

  /**
   * Splitting the output of `indent(text, spaces)` at newlines gives the
   * lines of the text, every one after the first with `spaces` spaces in front.
   */
  lemma IndentRestSplit(text: string, spaces: nat)
    requires |Text.SplitLines(text)| > 0
    ensures Text.Split(IndentRest(text, spaces), "\n") == PrefixLater(Text.SplitLines(text), Spaces(spaces))
  {
    var lines := Text.SplitLines(text);
    var pl := PrefixLater(lines, Spaces(spaces));
    IndentRestLines(text, spaces);
    SplitLinesFree(text);
    PrefixLaterNoNewline(lines, Spaces(spaces));
    Text.SplitJoin(pl, '\n');
  }

  lemma NoNewline(line: string)
    requires BreakFree(line)
    ensures '\n' !in line
  {
    forall c | 0 <= c < |line| ensures line[c] != '\n' {
      assert !Text.IsLineBreak(line[c]);
    }
  }

  /** Prefixing later lines with a newline-free prefix keeps every line free of newlines. */
  lemma PrefixLaterNoNewline(lines: seq<string>, prefix: string)
    requires '\n' !in prefix
    requires forall k :: 0 <= k < |lines| ==> BreakFree(lines[k])
    ensures forall k :: 0 <= k < |lines| ==> '\n' !in PrefixLater(lines, prefix)[k]
  {
    var pl := PrefixLater(lines, prefix);
    forall k | 0 <= k < |lines| ensures '\n' !in pl[k] {
      NoNewline(lines[k]);
      if k > 0 {
        assert pl[k] == prefix + lines[k];
      }
    }
  }

  /** Lines that `textwrap.indent` leaves alone: empty once stripped. */
  predicate Blank(line: string)
  {
    Text.Strip(line) == ""
  }

  /** Every non-blank line prefixed by `spaces` spaces, blank lines as they are. */
  function Prefixed(lines: seq<string>, spaces: nat): (r: seq<string>)
    ensures |r| == |lines|
  {
    if |lines| == 0 then []
    else [if Blank(lines[0]) then lines[0] else Spaces(spaces) + lines[0]] + Prefixed(lines[1..], spaces)
  }

  /** The number of lines that are not blank. */
  function NonBlank(lines: seq<string>): nat
  {
    if |lines| == 0 then 0 else (if Blank(lines[0]) then 0 else 1) + NonBlank(lines[1..])
  }

  /** `indent(text, spaces, first_line=True)`: `textwrap.indent`, which prefixes every non-blank line. */
  function IndentAll(text: string, spaces: nat): string
  {
    Text.Concat(Prefixed(Text.SplitLinesKeep(text), spaces))
  }

  /** Prefixing lengthens the text by the prefix once per non-blank line. */
  lemma {:induction false} PrefixedLength(lines: seq<string>, spaces: nat)
    ensures |Text.Concat(Prefixed(lines, spaces))| == |Text.Concat(lines)| + spaces * NonBlank(lines)
  {
    if |lines| > 0 {
      var n := NonBlank(lines[1..]);
      PrefixedLength(lines[1..], spaces);
      ConcatCons(Prefixed(lines, spaces));
      ConcatCons(lines);
      if !Blank(lines[0]) {
        assert NonBlank(lines) == 1 + n;
        MulSucc(spaces, n);
      } else {
        assert NonBlank(lines) == n;
      }
    }
  }

  lemma MulSucc(a: nat, n: nat)
    ensures a * (1 + n) == a + a * n
  {
  }

  lemma ConcatCons(parts: seq<string>)
    requires |parts| > 0
    ensures |Text.Concat(parts)| == |parts[0]| + |Text.Concat(parts[1..])|
  {
  }

  /**
   * `textwrap.indent` keeps the text and adds exactly `spaces` characters
   * for every line that is not blank.
   */
  lemma IndentAllLength(text: string, spaces: nat)
    ensures |IndentAll(text, spaces)| == |text| + spaces * NonBlank(Text.SplitLinesKeep(text))
  {
    PrefixedLength(Text.SplitLinesKeep(text), spaces);
    Text.SplitLinesKeepConcat(text);
  }

  /** Both forms of `indent`. */
  function Indent(text: string, spaces: nat, firstLine: bool): string
  {
    if firstLine then IndentAll(text, spaces) else IndentRest(text, spaces)
  }

  /** With no spaces, `textwrap.indent` gives the text back. */
  lemma IndentAllZero(text: string)
    ensures IndentAll(text, 0) == text
  {
    PrefixedZero(Text.SplitLinesKeep(text));
    Text.SplitLinesKeepConcat(text);
  }

  lemma {:induction false} PrefixedZero(lines: seq<string>)
    ensures Prefixed(lines, 0) == lines
  {
    if |lines| > 0 {
      PrefixedZero(lines[1..]);
      assert Spaces(0) == "";
      assert Spaces(0) + lines[0] == lines[0];
      assert Prefixed(lines, 0) == [lines[0]] + Prefixed(lines[1..], 0);
      assert lines == [lines[0]] + lines[1..];
    }
  }

  /** `split(value, delimiter)`: `str.split`, which refuses an empty separator. */
  function SplitFilter(value: string, delimiter: string): (r: Result<seq<string>>)
    ensures r.Success? <==> delimiter != ""
    ensures r.Success? ==> Text.Join(r.value, delimiter) == value
  {
    if delimiter == "" then Failure(Raised(ValueError, "empty separator"))
    else
      Text.JoinSplit(value, delimiter);
      Success(Text.Split(value, delimiter))
  }

  /** Splitting "Hello" at "l" leaves an empty piece between the two l's. */
  lemma SplitHello()
    ensures SplitFilter("Hello", "l") == Success(["He", "", "o"])
  {
    var parts := ["He", "", "o"];
    assert Text.Join(parts, "l") == "Hello" by {
      assert parts[1..] == ["", "o"];
      assert parts[1..][1..] == ["o"];
    }
    Text.SplitJoin(parts, 'l');
  }

  /**
   * `values(dictionaries, key)`: `item[key]` for every dict item that has the
   * key, skipping values equal to one collected before.
   */
  function Values(items: seq<Value>, key: Value): (r: seq<Value>)
    ensures |r| <= |items|
    decreases |items|
  {
    if |items| == 0 then []
    else
      var n := |items| - 1;
      var prev := Values(items[..n], key);
      var item := items[n];
      if item.DictV? && DictGet(item.entries, key).Some? && !PyIn(DictGet(item.entries, key).value, prev)
      then prev + [DictGet(item.entries, key).value]
      else prev
  }

  /** The item is a dict whose entry for `key` is `v`. */
  predicate Holds(item: Value, key: Value, v: Value)
  {
    item.DictV? && DictGet(item.entries, key) == Some(v)
  }

  /** No collected value equals one collected before it. */
  lemma {:induction false} ValuesDistinct(items: seq<Value>, key: Value)
    ensures forall i :: 0 <= i < |Values(items, key)| ==>
      !PyIn(Values(items, key)[i], Values(items, key)[..i])
    decreases |items|
  {
    if |items| > 0 {
      var n := |items| - 1;
      var prev := Values(items[..n], key);
      ValuesDistinct(items[..n], key);
      var r := Values(items, key);
      forall i | 0 <= i < |r| ensures !PyIn(r[i], r[..i]) {
        if i < |prev| {
          assert r[i] == prev[i];
          assert r[..i] == prev[..i];
        } else {
          assert r[..i] == prev;
        }
      }
    } else {
      assert Values(items, key) == [];
    }
  }

  /** The last item adds at most its own entry for the key. */
  lemma ValuesLast(items: seq<Value>, key: Value)
    requires |items| > 0
    ensures var prev := Values(items[..|items| - 1], key);
      var r := Values(items, key);
      |prev| <= |r| <= |prev| + 1 && r[..|prev|] == prev &&
      (|r| > |prev| ==> Holds(items[|items| - 1], key, r[|prev|]))
  {
  }

  /** Every collected value is the entry for the key of some dict item. */
  lemma ValuesSound(items: seq<Value>, key: Value, i: nat)
    requires i < |Values(items, key)|
    ensures exists k :: 0 <= k < |items| && Holds(items[k], key, Values(items, key)[i])
  {
    var k := ValueSource(items, key, i);
  }

  /** The item the `i`-th collected value comes from. */
  lemma {:induction false} ValueSource(items: seq<Value>, key: Value, i: nat) returns (k: nat)
    requires i < |Values(items, key)|
    ensures k < |items| && Holds(items[k], key, Values(items, key)[i])
    decreases |items|
  {
    var n := |items| - 1;
    var prev := Values(items[..n], key);
    ValuesLast(items, key);
    if i < |prev| {
      k := ValueSource(items[..n], key, i);
      assert items[k] == items[..n][k];
      assert Values(items, key)[i] == prev[i];
    } else {
      k := n;
    }
  }

  /** The entry for the key of every dict item is collected, up to equality. */
  lemma {:induction false} ValuesComplete(items: seq<Value>, key: Value)
    ensures forall k, v :: 0 <= k < |items| && Holds(items[k], key, v) ==> PyIn(v, Values(items, key))
    decreases |items|
  {
    if |items| > 0 {
      var n := |items| - 1;
      var prev := Values(items[..n], key);
      ValuesComplete(items[..n], key);
      var r := Values(items, key);
      assert r[..|prev|] == prev;
      forall k, v | 0 <= k < |items| && Holds(items[k], key, v) ensures PyIn(v, r) {
        if k < n {
          assert items[..n][k] == items[k];
          assert Holds(items[..n][k], key, v);
          assert PyIn(v, prev);
          var j :| 0 <= j < |prev| && PyEq(prev[j], v);
          assert r[j] == prev[j];
        } else if r != prev {
          assert r[|prev|] == v;
          PyEqReflexive(v);
        }
      }
    }
  }
}
