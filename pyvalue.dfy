/*
 * Python values as the lbuild core sees them: option inputs, enumeration
 * entries, collector values and user-supplied objects. Floats are not
 * modelled; str() of a composite value is approximated (see README).
 */
module PyValue {
  import opened Errors
  import Text

  datatype SeqKind = ListKind | TupleKind | SetKind | RangeKind | IterKind

  datatype Value =
    | NoneV
    | BoolV(b: bool)
    | IntV(i: int)
    | StrV(s: string)
    | SeqV(kind: SeqKind, items: seq<Value>)            // list, tuple, set, range, iterator
    | DictV(entries: seq<(Value, Value)>)               // insertion-ordered dict
    | EnumClassV(cls: string, members: seq<(string, Value)>)
    | EnumMemberV(cls: string, name: string, value: Value)
    | FuncV(name: string, arity: nat, doc: Option<string>)
    | ObjV(typeName: string, text: string)               // any other object, its type's name and its str()

  /** Python truthiness, `bool(v)`. */
  predicate Truthy(v: Value)
  {
    match v
    case NoneV => false
    case BoolV(b) => b
    case IntV(i) => i != 0
    case StrV(s) => |s| > 0
    case SeqV(k, items) => k == IterKind || |items| > 0
    case DictV(entries) => |entries| > 0
    case _ => true
  }

  /** bool is a subclass of int: True == 1 and False == 0. */
  predicate IsNumber(v: Value)
  {
    v.BoolV? || v.IntV?
  }

  function NumVal(v: Value): int
    requires IsNumber(v)
  {
    if v.BoolV? then (if v.b then 1 else 0) else v.i
  }

  /** Values that can be put into a Python set or used as a dict key. */
  predicate Hashable(v: Value)
  {
    match v
    case SeqV(k, items) =>
      k == RangeKind || k == IterKind ||
      (k == TupleKind && forall i :: 0 <= i < |items| ==> Hashable(items[i]))
    case DictV(_) => false
    case _ => true
  }

  /** Python's `a == b`. Identity-compared objects are compared structurally. */
  predicate PyEq(a: Value, b: Value)
    decreases a, 2
  {
    if IsNumber(a) && IsNumber(b) then NumVal(a) == NumVal(b)
    else
      match a
      case SeqV(ka, xs) =>
        b.SeqV? && ka == b.kind &&
        if ka == SetKind then
          (forall i :: 0 <= i < |xs| ==> InSeq(xs[i], b.items)) &&
          (forall j :: 0 <= j < |b.items| ==> Covered(a, b.items[j]))
        else
          |xs| == |b.items| && forall i :: 0 <= i < |xs| ==> PyEq(xs[i], b.items[i])
      case DictV(es) =>
        b.DictV? && |es| == |b.entries| &&
        forall i :: 0 <= i < |es| ==> DictHas(a, i, b.entries)
      case _ => a == b
  }

  /** Some element of `ys` equals `x`. */
  predicate InSeq(x: Value, ys: seq<Value>)
    decreases x, 3
  {
    exists j :: 0 <= j < |ys| && PyEq(x, ys[j])
  }

  /** Some element of the sequence value `a` equals `y`. */
  predicate Covered(a: Value, y: Value)
    requires a.SeqV?
    decreases a, 1
  {
    exists i :: 0 <= i < |a.items| && PyEq(a.items[i], y)
  }

  /** The `i`-th entry of the dict `a` appears, with an equal value, in `es`. */
  predicate DictHas(a: Value, i: nat, es: seq<(Value, Value)>)
    requires a.DictV? && i < |a.entries|
    decreases a, 1
  {
    exists j :: 0 <= j < |es| && PyEq(a.entries[i].0, es[j].0) && PyEq(a.entries[i].1, es[j].1)
  }

  lemma {:induction false} PyEqReflexive(a: Value)
    ensures PyEq(a, a)
    decreases a
  {
    match a
    case SeqV(k, xs) =>
      forall i | 0 <= i < |xs| ensures PyEq(xs[i], xs[i]) { PyEqReflexive(xs[i]); }
      if k == SetKind {
        forall i | 0 <= i < |xs| ensures InSeq(xs[i], xs) { assert PyEq(xs[i], xs[i]); }
        forall j | 0 <= j < |xs| ensures Covered(a, xs[j]) { assert PyEq(a.items[j], xs[j]); }
      }
    case DictV(es) =>
      forall i | 0 <= i < |es| ensures DictHas(a, i, es) {
        PyEqReflexive(es[i].0);
        PyEqReflexive(es[i].1);
      }
    case _ =>
  }

  /** Python's `v in xs` on a list. */
  predicate PyIn(v: Value, xs: seq<Value>)
  {
    exists i :: 0 <= i < |xs| && PyEq(xs[i], v)
  }

  /** Python's `d.get(k)` on a dict whose keys are pairwise unequal. */
  function DictGet(entries: seq<(Value, Value)>, key: Value): (r: Option<Value>)
    ensures r.None? <==> forall i :: 0 <= i < |entries| ==> !PyEq(entries[i].0, key)
    ensures r.Some? ==> exists i :: 0 <= i < |entries| && PyEq(entries[i].0, key) && r.value == entries[i].1
  {
    if |entries| == 0 then None
    else if PyEq(entries[0].0, key) then Some(entries[0].1)
    else DictGet(entries[1..], key)
  }

  /** Python's repr() of a string, without escape sequences. */
  function Repr(v: Value): string
    decreases v, 1
  {
    if v.StrV? then "'" + v.s + "'" else Str(v)
  }

  /**
   * Python's `str(v)`. Exact for None, bool, int, str, enum members and plain
   * objects; composite values get their bracketed display.
   */
  function Str(v: Value): (r: string)
    ensures v.SeqV? || v.DictV? || v.EnumClassV? || v.FuncV? ==>
      |r| > 0 && r[0] in "[({rs<"
    decreases v, 0
  {
    match v
    case NoneV => "None"
    case BoolV(b) => if b then "True" else "False"
    case IntV(i) => Text.IntToStr(i)
    case StrV(s) => s
    case SeqV(k, items) =>
      var reprs := seq(|items|, i requires 0 <= i < |items| => Repr(items[i]));
      (match k
       case ListKind => "[" + Text.Join(reprs, ", ") + "]"
       case TupleKind => "(" + Text.Join(reprs, ", ") + (if |items| == 1 then ",)" else ")")
       case SetKind => if |items| == 0 then "set()" else "{" + Text.Join(reprs, ", ") + "}"
       case RangeKind => "range(" + Text.Join(reprs, ", ") + ")"
       case IterKind => "<iterator>")
    case DictV(es) =>
      var reprs := seq(|es|, i requires 0 <= i < |es| => Repr(es[i].0) + ": " + Repr(es[i].1));
      "{" + Text.Join(reprs, ", ") + "}"
    case EnumClassV(cls, _) => "<enum '" + cls + "'>"
    case EnumMemberV(cls, name, _) => cls + "." + name
    case FuncV(name, _, _) => "<function " + name + ">"
    case ObjV(_, text) => text
  }

  /** `type(v).__name__`. */
  function TypeName(v: Value): string
  {
    match v
    case NoneV => "NoneType"
    case BoolV(_) => "bool"
    case IntV(_) => "int"
    case StrV(_) => "str"
    case SeqV(k, _) =>
      (match k
       case ListKind => "list"
       case TupleKind => "tuple"
       case SetKind => "set"
       case RangeKind => "range"
       case IterKind => "iterator")
    case DictV(_) => "dict"
    case EnumClassV(_, _) => "EnumMeta"
    case EnumMemberV(cls, _, _) => cls
    case FuncV(_, _, _) => "function"
    case ObjV(t, _) => t
  }

  /** `list(map(str, xs))`. */
  function StrAll(xs: seq<Value>): (r: seq<string>)
    ensures |r| == |xs|
    ensures forall i :: 0 <= i < |xs| ==> r[i] == Str(xs[i])
  {
    seq(|xs|, i requires 0 <= i < |xs| => Str(xs[i]))
  }

  /** Wraps every string of a sequence as a Python str value. */
  function StrValues(xs: seq<string>): (r: seq<Value>)
    ensures |r| == |xs|
    ensures forall i :: 0 <= i < |xs| ==> r[i] == StrV(xs[i])
  {
    seq(|xs|, i requires 0 <= i < |xs| => StrV(xs[i]))
  }
}
