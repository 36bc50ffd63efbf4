/*
 * lbuild's collectors: an insertion-ordered multi-map from collector
 * contexts to values, every value checked by the collector's option before
 * it is recorded, and a read-only extraction with an optional context
 * filter, de-duplication and default.
 *
 * A `CollectorContext` has no `__eq__`, so the ordered dict compares
 * contexts by identity; each context carries a serial number that stands
 * for that identity. Module names stand for module objects.
 */
module Collectors {
  import opened Errors
  import opened PyValue
  import Text
  import Utils
  import Options

  /** `CollectorContext(module, filename)`; `serial` is the object's identity. */
  datatype Context = Context(serial: nat, moduleName: string, filename: Option<string>)

  /** `CollectorContext.repository`: the module name up to its first `:`. */
  function Repository(c: Context): (r: string)
    ensures Text.StartsWith(c.moduleName, r) && ':' !in r
    ensures |r| < |c.moduleName| ==> c.moduleName[|r|] == ':'
  {
    Text.FirstField(c.moduleName, ':')
  }

  /** `CollectorContext.has_filename`. */
  predicate HasFilename(c: Context)
  {
    c.filename.Some?
  }

  /** What `add_values` reads from each operation it is given. */
  datatype Op = Op(moduleName: string, filename: Option<string>)

  /** One entry of the ordered dict: a context and the values recorded under it. */
  datatype Entry = Entry(context: Context, values: seq<Value>)

  // ------------------------------------------------------------ checking

  /** The option after a batch of assignments, the checked values, and the exception raised, if any. */
  datatype Checked = Checked(option: Options.OptionData, values: seq<Value>, error: Option<Error>)

  /**
   * The checking loop of `add_values`: each value is assigned to the option
   * and its converted output collected; the first rejected value stops it.
   */
  function Check(o: Options.OptionData, fullname: string, vs: seq<Value>): (r: Checked)
    decreases |vs|
  {
    if |vs| == 0 then Checked(o, [], None)
    else
      var c := Check(o, fullname, vs[..|vs| - 1]);
      if c.error.Some? then c
      else
        var a := Options.SetValue(c.option, fullname, vs[|vs| - 1]);
        if a.error.Some? then Checked(a.option, c.values, a.error)
        else Checked(a.option, c.values + [Options.Output(a.option)], None)
  }

  /** The option accepts `v`: the numeric checks pass and both conversions succeed. */
  predicate Accepts(kind: Options.OptionKind, fullname: string, v: Value)
  {
    Options.PreCheck(kind, fullname, v).None? &&
    Options.ConvertIn(kind, v).Success? && Options.ConvertOut(kind, fullname, v).Success?
  }

  /**
   * A batch is checked without error exactly when the option accepts every
   * value, and then the recorded values are the converted outputs, in order.
   */
  lemma CheckAccepts(o: Options.OptionData, fullname: string, vs: seq<Value>)
    ensures Check(o, fullname, vs).option.kind == o.kind
    ensures Check(o, fullname, vs).error.None? <==>
      forall i :: 0 <= i < |vs| ==> Accepts(o.kind, fullname, vs[i])
    ensures Check(o, fullname, vs).error.None? ==>
      |Check(o, fullname, vs).values| == |vs| &&
      forall i :: 0 <= i < |vs| ==>
        Check(o, fullname, vs).values[i] == Options.ConvertOut(o.kind, fullname, vs[i]).value
  {
    CheckNoError(o, fullname, vs);
    if Check(o, fullname, vs).error.None? {
      CheckValues(o, fullname, vs);
    }
  }

  /** The kind is kept, and the batch is checked without error exactly when every value is accepted. */
  lemma {:induction false} CheckNoError(o: Options.OptionData, fullname: string, vs: seq<Value>)
    ensures Check(o, fullname, vs).option.kind == o.kind
    ensures Check(o, fullname, vs).error.None? <==>
      forall i :: 0 <= i < |vs| ==> Accepts(o.kind, fullname, vs[i])
    decreases |vs|
  {
    if |vs| > 0 {
      var n := |vs| - 1;
      var init := vs[..n];
      CheckNoError(o, fullname, init);
      CheckStep(o, fullname, vs);
      AcceptsSnoc(o.kind, fullname, vs, init);
    }
  }

  lemma AcceptsSnoc(kind: Options.OptionKind, fullname: string, vs: seq<Value>, init: seq<Value>)
    requires |vs| > 0 && init == vs[..|vs| - 1]
    ensures (forall i :: 0 <= i < |vs| ==> Accepts(kind, fullname, vs[i])) <==>
      (forall i :: 0 <= i < |init| ==> Accepts(kind, fullname, init[i])) &&
      Accepts(kind, fullname, vs[|vs| - 1])
  {
    assert forall i :: 0 <= i < |init| ==> init[i] == vs[i];
  }

  /** Without error, the recorded values are the converted outputs, in order. */
  lemma {:induction false} CheckValues(o: Options.OptionData, fullname: string, vs: seq<Value>)
    requires forall i :: 0 <= i < |vs| ==> Accepts(o.kind, fullname, vs[i])
    ensures |Check(o, fullname, vs).values| == |vs|
    ensures forall i :: 0 <= i < |vs| ==>
      Options.ConvertOut(o.kind, fullname, vs[i]) == Success(Check(o, fullname, vs).values[i])
    decreases |vs|
  {
    if |vs| > 0 {
      var n := |vs| - 1;
      var init := vs[..n];
      CheckStep(o, fullname, vs);
      CheckNoError(o, fullname, vs);
      CheckNoError(o, fullname, init);
      AcceptsSnoc(o.kind, fullname, vs, init);
      CheckValues(o, fullname, init);
      var r, c := Check(o, fullname, vs), Check(o, fullname, init);
      forall i | 0 <= i < |vs| ensures Options.ConvertOut(o.kind, fullname, vs[i]) == Success(r.values[i]) {
        if i < n {
          assert r.values[i] == c.values[i];
          assert init[i] == vs[i];
        }
      }
    }
  }

  /** One more value: checked when the batch so far is and the option accepts it, its output appended. */
  lemma CheckStep(o: Options.OptionData, fullname: string, vs: seq<Value>)
    requires |vs| > 0
    ensures var c := Check(o, fullname, vs[..|vs| - 1]);
      var r := Check(o, fullname, vs);
      var v := vs[|vs| - 1];
      r.option.kind == c.option.kind &&
      (r.error.None? <==> c.error.None? && Accepts(c.option.kind, fullname, v)) &&
      (r.error.None? ==> r.values == c.values + [Options.ConvertOut(c.option.kind, fullname, v).value])
  {
  }

  /** The error of a rejected batch is the error of its first rejected value. */
  lemma {:induction false} CheckFirstError(o: Options.OptionData, fullname: string, vs: seq<Value>, k: nat)
    requires k < |vs| && !Accepts(o.kind, fullname, vs[k])
    requires forall i :: 0 <= i < k ==> Accepts(o.kind, fullname, vs[i])
    ensures Check(o, fullname, vs).error ==
      Options.SetValue(Check(o, fullname, vs[..k]).option, fullname, vs[k]).error
    decreases |vs|
  {
    var prefix := vs[..k];
    assert forall i :: 0 <= i < k ==> prefix[i] == vs[i];
    CheckAccepts(o, fullname, prefix);
    var a := Options.SetValue(Check(o, fullname, prefix).option, fullname, vs[k]);
    assert a.error.Some?;
    if k == |vs| - 1 {
      assert vs[..|vs| - 1] == prefix;
    } else {
      var init := vs[..|vs| - 1];
      assert init[..k] == prefix;
      CheckFirstError(o, fullname, init, k);
    }
  }

  // ------------------------------------------------------------ recording

  /** Index of the entry for the context with this identity, if there is one. */
  function IndexOf(entries: seq<Entry>, serial: nat): (r: Option<nat>)
    ensures r.Some? ==> r.value < |entries| && entries[r.value].context.serial == serial
    ensures r.None? ==> forall i :: 0 <= i < |entries| ==> entries[i].context.serial != serial
  {
    if |entries| == 0 then None
    else if entries[|entries| - 1].context.serial == serial then Some(|entries| - 1)
    else IndexOf(entries[..|entries| - 1], serial)
  }

  /** `_extend_values(context, values)` on the ordered dict. */
  function Extend(entries: seq<Entry>, c: Context, vs: seq<Value>): (r: seq<Entry>)
  {
    match IndexOf(entries, c.serial)
    case None => entries + [Entry(c, vs)]
    case Some(i) => entries[i := Entry(entries[i].context, entries[i].values + vs)]
  }

  /** Serial numbers are distinct and below the next one to hand out. */
  ghost predicate Fresh(entries: seq<Entry>, next: nat)
  {
    (forall i :: 0 <= i < |entries| ==> entries[i].context.serial < next) &&
    (forall i, j :: 0 <= i < j < |entries| ==> entries[i].context.serial != entries[j].context.serial)
  }

  /**
   * A context seen for the first time gets a new entry at the end; a known
   * one has the values appended to its entry and every other entry is kept.
   */
  lemma ExtendEntries(entries: seq<Entry>, c: Context, vs: seq<Value>)
    ensures IndexOf(entries, c.serial).None? ==> Extend(entries, c, vs) == entries + [Entry(c, vs)]
    ensures IndexOf(entries, c.serial).Some? ==>
      var i := IndexOf(entries, c.serial).value;
      |Extend(entries, c, vs)| == |entries| &&
      Extend(entries, c, vs)[i].values == entries[i].values + vs &&
      forall j :: 0 <= j < |entries| && j != i ==> Extend(entries, c, vs)[j] == entries[j]
  {
  }

  /** The contexts `add_values` creates, numbered from `next`. */
  function NewContexts(next: nat, moduleName: string, operations: Option<seq<Op>>): (r: seq<Context>)
    ensures operations.None? ==> r == [Context(next, moduleName, None)]
    ensures operations.Some? ==> (|r| == |operations.value| &&
      forall k :: 0 <= k < |r| ==>
        r[k] == Context(next + k, operations.value[k].moduleName, operations.value[k].filename))
  {
    if operations.None? then [Context(next, moduleName, None)]
    else
      var ops := operations.value;
      seq(|ops|, k requires 0 <= k < |ops| => Context(next + k, ops[k].moduleName, ops[k].filename))
  }

  /** Each context of the list, in order, receives the whole batch. */
  function ExtendAll(entries: seq<Entry>, cs: seq<Context>, vs: seq<Value>): seq<Entry>
    decreases |cs|
  {
    if |cs| == 0 then entries
    else Extend(ExtendAll(entries, cs[..|cs| - 1], vs), cs[|cs| - 1], vs)
  }

  /** Every entry of `es` holds the batch `vs`, under contexts `cs`. */
  function Batch(cs: seq<Context>, vs: seq<Value>): (r: seq<Entry>)
    ensures |r| == |cs| && forall k :: 0 <= k < |cs| ==> r[k] == Entry(cs[k], vs)
  {
    seq(|cs|, k requires 0 <= k < |cs| => Entry(cs[k], vs))
  }

  /** Fresh contexts are never found, so each batch gets its own new entry. */
  lemma {:induction false} ExtendAllFresh(entries: seq<Entry>, next: nat, cs: seq<Context>, vs: seq<Value>)
    requires Fresh(entries, next)
    requires forall k :: 0 <= k < |cs| ==> cs[k].serial == next + k
    ensures ExtendAll(entries, cs, vs) == entries + Batch(cs, vs)
    ensures Fresh(ExtendAll(entries, cs, vs), next + |cs|)
    decreases |cs|
  {
    if |cs| > 0 {
      var init := cs[..|cs| - 1];
      ExtendAllFresh(entries, next, init, vs);
      var before := entries + Batch(init, vs);
      assert IndexOf(before, cs[|cs| - 1].serial).None?;
      assert before + [Entry(cs[|cs| - 1], vs)] == entries + Batch(cs, vs);
    }
  }

  // ------------------------------------------------------------ extraction

  /** The values of the entries `filter` admits, in insertion order (all of them without a filter). */
  function Selected(entries: seq<Entry>, filter: Option<Context -> bool>): seq<Value>
    decreases |entries|
  {
    if |entries| == 0 then []
    else
      var e := entries[|entries| - 1];
      Selected(entries[..|entries| - 1], filter) +
        (if filter.None? || filter.value(e.context) then e.values else [])
  }

  lemma SelectedAppend(entries: seq<Entry>, more: seq<Entry>, filter: Option<Context -> bool>)
    ensures Selected(entries + more, filter) == Selected(entries, filter) + Selected(more, filter)
    decreases |more|
  {
    if |more| == 0 {
      assert entries + more == entries;
    } else {
      assert (entries + more)[..|entries + more| - 1] == entries + more[..|more| - 1];
      assert (entries + more)[|entries + more| - 1] == more[|more| - 1];
      SelectedAppend(entries, more[..|more| - 1], filter);
    }
  }

  /** A filter that admits every context selects the same values as no filter. */
  lemma {:induction false} SelectedAll(entries: seq<Entry>, filter: Context -> bool)
    requires forall c :: filter(c)
    ensures Selected(entries, Some(filter)) == Selected(entries, None)
    decreases |entries|
  {
    if |entries| > 0 {
      SelectedAll(entries[..|entries| - 1], filter);
    }
  }

  /** `list(OrderedDict.fromkeys(xs))` for hashable values: first occurrences, in order. */
  function Uniq(xs: seq<Value>): (r: seq<Value>)
    decreases |xs|
  {
    if |xs| == 0 then []
    else
      var acc := Uniq(xs[..|xs| - 1]);
      if PyIn(xs[|xs| - 1], acc) then acc else acc + [xs[|xs| - 1]]
  }

  /** No two elements of `xs` are equal. */
  predicate Distinct(xs: seq<Value>)
  {
    forall i, j :: 0 <= i < j < |xs| ==> !PyEq(xs[i], xs[j])
  }

  /** The de-duplicated list has no two equal elements. */
  lemma {:induction false} UniqIsDistinct(xs: seq<Value>)
    ensures Distinct(Uniq(xs))
    decreases |xs|
  {
    if |xs| > 0 {
      var init := xs[..|xs| - 1];
      UniqIsDistinct(init);
    }
  }

  /** Every element of the input equals some element of the de-duplicated list. */
  lemma {:induction false} UniqCovers(xs: seq<Value>)
    ensures forall i :: 0 <= i < |xs| ==> PyIn(xs[i], Uniq(xs))
    decreases |xs|
  {
    if |xs| > 0 {
      var init := xs[..|xs| - 1];
      var x := xs[|xs| - 1];
      UniqCovers(init);
      var acc := Uniq(init);
      if !PyIn(x, acc) {
        var r := acc + [x];
        PyEqReflexive(x);
        assert PyEq(r[|acc|], x);
        forall i | 0 <= i < |init| ensures PyIn(init[i], r) {
          var j :| 0 <= j < |acc| && PyEq(acc[j], init[i]);
          assert r[j] == acc[j];
        }
      }
      assert forall i :: 0 <= i < |init| ==> init[i] == xs[i];
    }
  }

  /** Each element of the de-duplicated list is an element of the input. */
  lemma {:induction false} UniqFrom(xs: seq<Value>)
    ensures forall k :: 0 <= k < |Uniq(xs)| ==> Uniq(xs)[k] in xs
    decreases |xs|
  {
    if |xs| > 0 {
      var init := xs[..|xs| - 1];
      UniqFrom(init);
      assert forall v :: v in init ==> v in xs;
    }
  }

  /** A list without duplicates is left as it is. */
  lemma {:induction false} UniqDistinct(xs: seq<Value>)
    requires Distinct(xs)
    ensures Uniq(xs) == xs
    decreases |xs|
  {
    if |xs| > 0 {
      var init := xs[..|xs| - 1];
      assert Distinct(init);
      UniqDistinct(init);
      assert !PyIn(xs[|xs| - 1], init);
    }
  }

  /** The first value that cannot be a dict key, if any. */
  function FirstUnhashable(xs: seq<Value>): (r: Option<nat>)
    ensures r.Some? ==> (r.value < |xs| && !Hashable(xs[r.value]) &&
      forall i :: 0 <= i < r.value ==> Hashable(xs[i]))
    ensures r.None? ==> forall i :: 0 <= i < |xs| ==> Hashable(xs[i])
  {
    if |xs| == 0 then None
    else if !Hashable(xs[0]) then Some(0)
    else
      var r := FirstUnhashable(xs[1..]);
      if r.Some? then Some(r.value + 1) else None
  }

  /** `OrderedDict.fromkeys(xs)`, which raises on the first unhashable value. */
  function UniqueValues(xs: seq<Value>): (r: Result<seq<Value>>)
    ensures r.Failure? <==> exists i :: 0 <= i < |xs| && !Hashable(xs[i])
    ensures r.Success? ==> r.value == Uniq(xs)
  {
    match FirstUnhashable(xs)
    case Some(i) => Failure(Raised(TypeError, "unhashable type: '" + TypeName(xs[i]) + "'"))
    case None => Success(Uniq(xs))
  }

  /** `Collector.values(default, filterfunc, unique)` on the recorded entries. */
  function ValuesOf(entries: seq<Entry>, default: Value, filter: Option<Context -> bool>,
                    unique: bool): Result<seq<Value>>
  {
    var all := Selected(entries, filter);
    var vs :- if unique then UniqueValues(all) else Success(all);
    if !default.NoneV? && |vs| == 0 then Success(Utils.Listify([default])) else Success(vs)
  }

  /**
   * The default is returned, listified, exactly when nothing is selected;
   * otherwise the result is the selected values, de-duplicated when asked.
   */
  lemma ValuesDefault(entries: seq<Entry>, default: Value, filter: Option<Context -> bool>, unique: bool)
    ensures var all := Selected(entries, filter);
      (!unique || forall i :: 0 <= i < |all| ==> Hashable(all[i])) ==>
        ValuesOf(entries, default, filter, unique) ==
          if !default.NoneV? && |all| == 0 then Success(Utils.Listify([default]))
          else if unique then Success(Uniq(all)) else Success(all)
  {
    var all := Selected(entries, filter);
    if unique && |all| > 0 {
      UniqCovers(all);
      assert PyIn(all[0], Uniq(all));
    }
  }

  // ------------------------------------------------------------ the collector

  class Collector {
    /** The full name the option reports in its errors. */
    const fullname: string
    /** The collector's option; each value passes through its setter. */
    var option: Options.OptionData
    /** `_values`, the ordered dict, as a list of entries. */
    var entries: seq<Entry>
    /** The identity the next context gets. */
    var next: nat

    ghost predicate Valid()
      reads this
    {
      Fresh(entries, next)
    }

    constructor(fullname: string, option: Options.OptionData)
      ensures Valid()
      ensures this.fullname == fullname && this.option == option
      ensures entries == [] && next == 0
    {
      this.fullname := fullname;
      this.option := option;
      entries := [];
      next := 0;
    }

    /** `_extend_values(context, values)`. */
    method ExtendValues(c: Context, vs: seq<Value>)
      modifies this
      ensures entries == Extend(old(entries), c, vs)
      ensures option == old(option) && next == old(next)
    {
      var i := IndexOf(entries, c.serial);
      if i.None? {
        entries := entries + [Entry(c, [])];
        i := Some(|entries| - 1);
        assert entries[i.value].values + vs == vs;
      }
      entries := entries[i.value := Entry(entries[i.value].context, entries[i.value].values + vs)];
    }

    /**
     * `add_values(values, module, operations)`: every value is checked by the
     * option; a rejected value raises and nothing of the batch is recorded.
     * Otherwise the batch is recorded under a new context for `module`, or
     * under one new context per operation.
     */
    method AddValues(values: Value, moduleName: string, operations: Option<seq<Op>>)
      returns (err: Option<Error>)
      requires Valid()
      modifies this
      ensures Valid()
      ensures var c := Check(old(option), fullname, Utils.Listify([values]));
        err == c.error && option == c.option &&
        (err.Some? ==> entries == old(entries) && next == old(next)) &&
        (err.None? ==>
          var cs := NewContexts(old(next), moduleName, operations);
          entries == old(entries) + Batch(cs, c.values) && next == old(next) + |cs|)
    {
      var checked;
      checked, err := AssignAll(Utils.Listify([values]));
      if err.Some? {
        return;
      }
      var cs := NewContexts(next, moduleName, operations);
      ghost var e0 := entries;
      RecordAll(cs, checked);
      ExtendAllFresh(e0, next, cs, checked);
      next := next + |cs|;
    }

    /** The checking loop of `add_values`: each value goes through the option's setter. */
    method AssignAll(vs: seq<Value>) returns (checked: seq<Value>, err: Option<Error>)
      modifies this
      ensures Check(old(option), fullname, vs) == Checked(option, checked, err)
      ensures entries == old(entries) && next == old(next)
    {
      checked := [];
      ghost var o0 := option;
      var k := 0;
      while k < |vs|
        invariant 0 <= k <= |vs|
        invariant Check(o0, fullname, vs[..k]) == Checked(option, checked, None)
        invariant entries == old(entries) && next == old(next)
      {
        var a := Options.SetValue(option, fullname, vs[k]);
        assert vs[..k + 1][..k] == vs[..k];
        option := a.option;
        if a.error.Some? {
          CheckStops(o0, fullname, vs, k + 1);
          assert vs[..|vs|] == vs;
          return checked, a.error;
        }
        checked := checked + [Options.Output(a.option)];
        k := k + 1;
      }
      assert vs[..k] == vs;
      err := None;
    }

    /** The recording loop of `add_values`: the batch goes under each context in turn. */
    method RecordAll(cs: seq<Context>, checked: seq<Value>)
      modifies this
      ensures entries == ExtendAll(old(entries), cs, checked)
      ensures option == old(option) && next == old(next)
    {
      var j := 0;
      while j < |cs|
        invariant 0 <= j <= |cs|
        invariant entries == ExtendAll(old(entries), cs[..j], checked)
        invariant option == old(option) && next == old(next)
      {
        assert cs[..j + 1][..j] == cs[..j];
        ExtendValues(cs[j], checked);
        j := j + 1;
      }
      assert cs[..j] == cs;
    }

    /** `values(default, filterfunc, unique)`; nothing changes. */
    method Values(default: Value, filter: Option<Context -> bool>, unique: bool)
      returns (r: Result<seq<Value>>)
      ensures r == ValuesOf(entries, default, filter, unique)
    {
      var all: seq<Value> := [];
      for i := 0 to |entries|
        invariant all == Selected(entries[..i], filter)
      {
        assert entries[..i + 1][..i] == entries[..i];
        if filter.None? || filter.value(entries[i].context) {
          all := all + entries[i].values;
        }
      }
      assert entries[..|entries|] == entries;
      var vs := all;
      if unique {
        var u := UniqueValues(all);
        if u.Failure? {
          return Failure(u.error);
        }
        vs := u.value;
      }
      if !default.NoneV? && |vs| == 0 {
        vs := Utils.Listify([default]);
      }
      r := Success(vs);
    }
  }

  /** Once a value is rejected, the rest of the batch is not looked at. */
  lemma {:induction false} CheckStops(o: Options.OptionData, fullname: string, vs: seq<Value>, k: nat)
    requires 0 < k <= |vs| && Check(o, fullname, vs[..k]).error.Some?
    ensures Check(o, fullname, vs) == Check(o, fullname, vs[..k])
    decreases |vs|
  {
    if k < |vs| {
      var init := vs[..|vs| - 1];
      assert init[..k] == vs[..k];
      CheckStops(o, fullname, init, k);
    } else {
      assert vs[..k] == vs;
    }
  }

  /**
   * After a successful `add_values` without operations, extracting all values
   * (without de-duplication) yields the earlier values followed by the batch,
   * and a filter sees the batch exactly when it admits the new context.
   */
  lemma AddedValues(entries: seq<Entry>, next: nat, moduleName: string, batch: seq<Value>,
                    filter: Option<Context -> bool>)
    ensures var c := Context(next, moduleName, None);
      Selected(entries + Batch(NewContexts(next, moduleName, None), batch), filter) ==
        Selected(entries, filter) + (if filter.None? || filter.value(c) then batch else [])
  {
    var b := Batch(NewContexts(next, moduleName, None), batch);
    SelectedAppend(entries, b, filter);
    assert b[..0] == [];
  }

  /** With operations, the batch appears once per operation. */
  lemma {:induction false} AddedPerOperation(entries: seq<Entry>, cs: seq<Context>, batch: seq<Value>)
    ensures Selected(entries + Batch(cs, batch), None) == Selected(entries, None) + Repeat(batch, |cs|)
    decreases |cs|
  {
    SelectedAppend(entries, Batch(cs, batch), None);
    BatchAll(cs, batch);
  }

  /** `n` copies of `vs`, one after the other. */
  function Repeat(vs: seq<Value>, n: nat): (r: seq<Value>)
    ensures |r| == n * |vs|
  {
    if n == 0 then [] else Repeat(vs, n - 1) + vs
  }

  lemma {:induction false} BatchAll(cs: seq<Context>, batch: seq<Value>)
    ensures Selected(Batch(cs, batch), None) == Repeat(batch, |cs|)
    decreases |cs|
  {
    if |cs| > 0 {
      var init := cs[..|cs| - 1];
      assert Batch(cs, batch)[..|cs| - 1] == Batch(init, batch);
      BatchAll(init, batch);
    }
  }
}
